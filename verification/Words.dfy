/** Machine words and the bytes they are made of, lowest byte first. */
module Words {

  datatype Lanes = Lanes(b0: bv8, b1: bv8, b2: bv8, b3: bv8, b4: bv8, b5: bv8, b6: bv8, b7: bv8)

  function LanesOf(w: bv64): Lanes {
    Lanes((w & 0xff) as bv8, ((w >> 8) & 0xff) as bv8, ((w >> 16) & 0xff) as bv8, ((w >> 24) & 0xff) as bv8,
          ((w >> 32) & 0xff) as bv8, ((w >> 40) & 0xff) as bv8, ((w >> 48) & 0xff) as bv8, ((w >> 56) & 0xff) as bv8)
  }

  function AsBytes(x: Lanes): (r: seq<bv8>)
    ensures |r| == 8
  {
    [x.b0, x.b1, x.b2, x.b3, x.b4, x.b5, x.b6, x.b7]
  }

  function Split64(w: bv64): (r: seq<bv8>)
    ensures |r| == 8
  {
    AsBytes(LanesOf(w))
  }

  function Split32(w: bv32): (r: seq<bv8>)
    ensures |r| == 4
  {
    [(w & 0xff) as bv8, ((w >> 8) & 0xff) as bv8, ((w >> 16) & 0xff) as bv8, ((w >> 24) & 0xff) as bv8]
  }

  /** What a region of memory holds when it is looked at byte by byte. */
  function Bytes64(ws: seq<bv64>): (r: seq<bv8>)
    ensures |r| == 8 * |ws|
  {
    if ws == [] then [] else Bytes64(ws[..|ws| - 1]) + Split64(ws[|ws| - 1])
  }

  function Bytes32(ws: seq<bv32>): (r: seq<bv8>)
    ensures |r| == 4 * |ws|
  {
    if ws == [] then [] else Bytes32(ws[..|ws| - 1]) + Split32(ws[|ws| - 1])
  }

  lemma BytesSnoc(ws: seq<bv64>, i: nat)
    requires i < |ws|
    ensures Bytes64(ws[..i + 1]) == Bytes64(ws[..i]) + Split64(ws[i])
  {
    assert ws[..i + 1][..i] == ws[..i];
  }

  function AndLanes(x: Lanes, y: Lanes): Lanes {
    Lanes(x.b0 & y.b0, x.b1 & y.b1, x.b2 & y.b2, x.b3 & y.b3, x.b4 & y.b4, x.b5 & y.b5, x.b6 & y.b6, x.b7 & y.b7)
  }

  function NotLanes(x: Lanes): Lanes {
    Lanes(!x.b0, !x.b1, !x.b2, !x.b3, !x.b4, !x.b5, !x.b6, !x.b7)
  }

  /** Bitwise operations on words act byte by byte. */
  lemma AndIsLanewise(a: bv64, b: bv64)
    ensures LanesOf(a & b) == AndLanes(LanesOf(a), LanesOf(b))
  {
  }

  lemma NotIsLanewise(a: bv64)
    ensures LanesOf(!a) == NotLanes(LanesOf(a))
  {
  }

  predicate ZeroLanes(x: Lanes) {
    x.b0 == 0 && x.b1 == 0 && x.b2 == 0 && x.b3 == 0 && x.b4 == 0 && x.b5 == 0 && x.b6 == 0 && x.b7 == 0
  }

  /** A word is zero exactly when all its bytes are. */
  lemma ZeroIsLanewise(w: bv64)
    ensures w == 0 <==> ZeroLanes(LanesOf(w))
  {
  }
}
