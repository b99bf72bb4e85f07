/** How close two hits of a scanner can be. */
module Spacing {
  import opened Bits
  import opened Scanners

  /** A string matches itself p places further on. */
  predicate Repeats(str: seq<byte>, p: nat) {
    p <= |str| && str[p..] == str[..|str| - p]
  }

  /** The least such distance, from `from` on. */
  function Period(str: seq<byte>, from: nat): (p: nat)
    requires from <= |str|
    ensures from <= p <= |str| && Repeats(str, p)
    ensures forall i | from <= i < p :: !Repeats(str, i)
    decreases |str| - from
  {
    if Repeats(str, from) then from else Period(str, from + 1)
  }

  /** The least distance of two hits. */
  function Distance(param: ScanParam): (d: nat)
    ensures !param.ScanBlock? && param.Length() > 0 ==> 1 <= d <= param.Length()
  {
    match param
    case ScanChar(_) => 1
    case ScanBlock(block) => block
    case ScanString(str, _, _) => if str == [] then 0 else Period(str, 1)
  }

  lemma DistanceIsPositive(param: ScanParam)
    requires param.Valid()
    ensures Distance(param) > 0
  {
  }

  lemma OccurrencesApart(str: seq<byte>, data: seq<byte>, k: nat, q: nat)
    requires str != [] && k < q && OccursAt(str, data, k) && OccursAt(str, data, q)
    ensures q - k >= Period(str, 1)
  {
    var p := q - k;
    if p < |str| {
      assert str[p..] == data[q..k + |str|] by {
        SliceOfSlice(data, k, k + |str|, p, |str|);
      }
      assert str[..|str| - p] == data[q..k + |str|] by {
        SliceOfSlice(data, q, q + |str|, 0, |str| - p);
      }
      assert Repeats(str, p);
    }
  }

  lemma MultiplesOfBlockApart(a: nat, b: nat, block: nat)
    requires block > 0 && a < b && a % block == 0 && b % block == 0
    ensures b - a >= block
  {
    if b - a < block {
      BlockPhase(a, block, b - a);
    }
  }

  lemma HitsApart(sc: Scanner, image: seq<byte>, k: nat, q: nat)
    requires sc.param.Valid() && k < q && Hit(sc, image, k) && Hit(sc, image, q)
    ensures q - k >= Distance(sc.param)
  {
    match sc.param
    case ScanChar(_) =>
    case ScanBlock(block) => MultiplesOfBlockApart(k + sc.offset, q + sc.offset, block);
    case ScanString(str, _, _) => OccurrencesApart(str, image, k + sc.offset, q + sc.offset);
  }

  /** What a scanner that is no block scanner looks for. */
  function Pattern(param: ScanParam): seq<byte>
    requires !param.ScanBlock?
  {
    if param.ScanChar? then [param.c] else param.str
  }

  lemma HitWhenPattern(sc: Scanner, image: seq<byte>, q: nat)
    requires !sc.param.ScanBlock?
    ensures Hit(sc, image, q) <==> OccursAt(Pattern(sc.param), image, q + sc.offset)
  {
    var p := q + sc.offset;
    if p < |image| {
      assert image[p..p + 1] == [image[p]];
    }
  }

  /** An image with just this at position p. */
  function Planted(s: seq<byte>, p: nat, size: nat): (image: seq<byte>)
    requires p + |s| <= size
    ensures |image| == size
  {
    seq(p, _ => 0) + s + seq(size - p - |s|, _ => 0)
  }

  lemma PlantedOccurs(s: seq<byte>, p: nat, size: nat, from: nat, str: seq<byte>)
    requires p + |s| <= size && OccursAt(str, s, from)
    ensures OccursAt(str, Planted(s, p, size), p + from)
  {
    var image := Planted(s, p, size);
    assert image[p..p + |s|] == s;
    SliceOfSlice(image, p, p + |s|, from, from + |str|);
  }

  /** Two hits as close as they can get, the second one at q. */
  lemma ClosestHits(sc: Scanner, q: nat, size: nat) returns (image: seq<byte>)
    requires sc.param.Valid() && !sc.param.ScanBlock? && Distance(sc.param) <= q
    requires q + sc.offset + sc.param.Length() <= size
    ensures |image| == size && Hit(sc, image, q - Distance(sc.param)) && Hit(sc, image, q)
  {
    PatternRepeats(sc.param);
    image := HitsRepeat(sc, q, size, Distance(sc.param));
  }

  lemma HitsRepeat(sc: Scanner, q: nat, size: nat, d: nat) returns (image: seq<byte>)
    requires !sc.param.ScanBlock? && d <= q && Repeats(Pattern(sc.param), d)
    requires q + sc.offset + |Pattern(sc.param)| <= size
    ensures |image| == size && Hit(sc, image, q - d) && Hit(sc, image, q)
  {
    var p := q - d + sc.offset;
    image := WrittenTwice(Pattern(sc.param), d, p, size);
    HitWhenPattern(sc, image, q - d);
    HitWhenPattern(sc, image, q);
  }

  lemma WrittenTwice(str: seq<byte>, d: nat, p: nat, size: nat) returns (image: seq<byte>)
    requires Repeats(str, d) && p + d + |str| <= size
    ensures |image| == size && OccursAt(str, image, p) && OccursAt(str, image, p + d)
  {
    OverlapOccurs(str, d);
    var s := str[..d] + str;
    image := Planted(s, p, size);
    PlantedOccurs(s, p, size, 0, str);
    PlantedOccurs(s, p, size, d, str);
  }

  lemma PatternRepeats(param: ScanParam)
    requires param.Valid() && !param.ScanBlock?
    ensures |Pattern(param)| == param.Length() && Repeats(Pattern(param), Distance(param))
  {
    assert param.ScanChar? ==> [param.c][1..] == [] == [param.c][..0];
  }

  /** A string that repeats after d bytes can be written twice, d bytes apart. */
  lemma OverlapOccurs(str: seq<byte>, d: nat)
    requires Repeats(str, d)
    ensures OccursAt(str, str[..d] + str, 0) && OccursAt(str, str[..d] + str, d)
  {
    var s := str[..d] + str;
    assert s[d..d + |str|] == str;
    assert str == str[..d] + str[d..];
    assert s[0..|str|] == str[..d] + str[..|str| - d];
  }

  lemma OneHit(sc: Scanner, q: nat, size: nat) returns (image: seq<byte>)
    requires !sc.param.ScanBlock? && q + sc.offset + sc.param.Length() <= size
    ensures |image| == size && Hit(sc, image, q)
  {
    var str := Pattern(sc.param);
    image := Planted(str, q + sc.offset, size);
    assert str[0..|str|] == str;
    PlantedOccurs(str, q + sc.offset, size, 0, str);
    HitWhenPattern(sc, image, q);
  }
}
