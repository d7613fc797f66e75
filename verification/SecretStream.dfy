/** The stream cipher the attachments use, as a parameter.  A cipher turns each plaintext chunk and
    a FINAL flag into a ciphertext chunk that is 17 bytes longer, and back.  The key is fixed. */
module SecretStream {
  import opened Options
  import opened Bytes

  datatype Pulled<!S> = Pulled(st: S, plain: seq<byte>, final: bool)

  datatype Cipher<!S> = Cipher(
    init: seq<byte> -> S,
    push: (S, seq<byte>, bool) -> (S, seq<byte>),
    pull: (S, seq<byte>) -> Option<Pulled<S>>)

  /** What is pulled is 17 bytes shorter than what was given. */
  ghost predicate PullCosts<S(!new)>(c: Cipher<S>) {
    forall st, chunk :: c.pull(st, chunk).Some? ==> |chunk| == |c.pull(st, chunk).value.plain| + 17
  }

  /** Pulling a pushed chunk gives back what was pushed and leaves both sides in the same state. */
  ghost predicate Inverts<S(!new)>(c: Cipher<S>) {
    forall st, plain, final ::
      && |c.push(st, plain, final).1| == |plain| + 17
      && c.pull(st, c.push(st, plain, final).1) == Some(Pulled(c.push(st, plain, final).0, plain, final))
  }

  /** There are such ciphers: one that counts chunks and appends the count and the flag. */
  function CountingCipher(): Cipher<int> {
    Cipher(
      header => 0,
      (n: int, plain, final) => (n + 1, plain + Tag(n, final)),
      (n: int, chunk) =>
        if |chunk| < 17 then None
        else
          var plain := chunk[..|chunk| - 17];
          if chunk == plain + Tag(n, true) then Some(Pulled(n + 1, plain, true))
          else if chunk == plain + Tag(n, false) then Some(Pulled(n + 1, plain, false))
          else None)
  }

  function Tag(n: int, final: bool): (t: seq<byte>)
    ensures |t| == 17
  {
    [n % 256, if final then 1 else 0] + seq(15, i => 0)
  }

  lemma CountingCipherWorks()
    ensures Inverts(CountingCipher()) && PullCosts(CountingCipher())
  {
    var c := CountingCipher();
    forall st: int, plain: seq<byte>, final: bool
      ensures |c.push(st, plain, final).1| == |plain| + 17
      ensures c.pull(st, c.push(st, plain, final).1) == Some(Pulled(c.push(st, plain, final).0, plain, final))
    {
      var chunk := plain + Tag(st, final);
      assert chunk[..|chunk| - 17] == plain;
      assert Tag(st, true)[1] != Tag(st, false)[1];
      assert final || chunk[|plain| + 1] != (plain + Tag(st, true))[|plain| + 1];
    }
  }
}
