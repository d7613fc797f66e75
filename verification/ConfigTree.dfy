/** Bencoded values as trees.  A wire dict is a list of pairs in wire order: the parser, not the type,
    insists on ascending keys. */
module ConfigTree {
  import opened Options
  import opened ConfigData

  datatype Wire =
    | WInt(n: int)
    | WStr(s: string)
    | WList(items: seq<Wire>)
    | WDict(pairs: seq<Pair>)

  datatype Pair = Pair(key: string, value: Wire)

  function WireScalar(s: Scalar): Wire {
    match s
    case Int(i) => WInt(i)
    case Str(t) => WStr(t)
  }

  function ReadScalar(w: Wire): (r: Option<Scalar>)
    ensures r.Some? ==> WireScalar(r.value) == w
    ensures r.None? ==> forall s :: WireScalar(s) != w
  {
    match w
    case WInt(n) => if -0x8000_0000_0000_0000 <= n < 0x8000_0000_0000_0000 then Some(Int(n)) else None
    case WStr(t) => Some(Str(t))
    case _ => None
  }

  /** A wire value that is no scalar. */
  type LoneWire = w: Wire | ReadScalar(w).None? witness WList([])
}
