/** The tables of character scores (make_luts of tools/textextract.c). */
module TextTables {
  import opened Bits

  /** struct rule; the ranges are a C string without its final NUL. */
  datatype Rule = Rule(score: int, rep: int, ranges: seq<byte>)
  {
    predicate Valid() {
      NulFree(ranges)
    }
  }

  const DASH: byte := 45

  predicate NulFree(s: seq<byte>) {
    forall k | 0 <= k < |s| :: s[k] != 0
  }

  /** The byte at p, NUL at the end of the string. */
  function At(s: seq<byte>, p: nat): byte {
    if p < |s| then s[p] else 0
  }

  // ---- what a string of ranges means ----

  datatype Range = Range(lo: byte, hi: byte)
  {
    predicate Has(c: byte) {
      lo <= c <= hi
    }
  }

  /** The first range of s[p..]. A dash at the end leaves the byte before it with nothing. */
  function First(s: seq<byte>, p: nat): Range
    requires p < |s|
  {
    Range(s[p], if At(s, p + 1) == DASH then At(s, p + 2) else s[p])
  }

  /** Where the next range begins. */
  function After(s: seq<byte>, p: nat): (q: nat)
    requires p < |s|
    ensures p < q <= |s|
  {
    if At(s, p + 1) == DASH && p + 2 < |s| then p + 3 else p + 1
  }

  predicate InRanges(s: seq<byte>, p: nat, c: byte)
    requires p <= |s|
    decreases |s| - p
  {
    p < |s| && (First(s, p).Has(c) || InRanges(s, After(s, p), c))
  }

  /** The empty string stands for NUL. */
  predicate Covers(s: seq<byte>, c: byte) {
    if s == [] then c == 0 else InRanges(s, 0, c)
  }

  /** How a list of ranges is written. */
  function Written(rs: seq<Range>): seq<byte> {
    if rs == [] then []
    else Spelling(rs[0]) + Written(rs[1..])
  }

  /** No range that begins with a dash comes right behind a single byte, which would be
      taken for the beginning of a longer range. */
  predicate Writable(rs: seq<Range>) {
    forall k | 0 <= k < |rs| ::
      rs[k].lo != 0 && rs[k].hi != 0 && (k > 0 && rs[k - 1].lo == rs[k - 1].hi ==> rs[k].lo != DASH)
  }

  /** Nor may what comes behind the list begin with one if the list ends with such a byte. */
  predicate MayPrecede(rs: seq<Range>, after: seq<byte>) {
    rs != [] && rs[|rs| - 1].lo == rs[|rs| - 1].hi && after != [] ==> after[0] != DASH
  }

  lemma {:induction false} WrittenIsNulFree(rs: seq<Range>)
    requires Writable(rs)
    ensures NulFree(Written(rs)) && (rs == [] <==> Written(rs) == [])
    ensures rs != [] ==> Written(rs)[0] == rs[0].lo
  {
    if rs == [] {
    } else {
      WrittenTail(rs);
      WrittenIsNulFree(rs[1..]);
    }
  }

  lemma WrittenTail(rs: seq<Range>)
    requires Writable(rs) && rs != []
    ensures Writable(rs[1..])
  {
    assert forall k | 0 <= k < |rs| - 1 :: rs[1..][k] == rs[k + 1];
  }

  function Spelling(r: Range): (s: seq<byte>)
    ensures s != [] && s[0] == r.lo
  {
    if r.lo == r.hi then [r.lo] else [r.lo, DASH, r.hi]
  }

  lemma FirstIsSpelled(before: seq<byte>, r: Range, rest: seq<byte>)
    requires r.lo != 0 && r.hi != 0 && MayPrecede([r], rest)
    ensures var s, next := before + Spelling(r) + rest, before + Spelling(r);
      First(s, |before|) == r && After(s, |before|) == |next|
  {
    var s, p := before + Spelling(r) + rest, |before|;
    assert s[p] == r.lo;
    if r.lo == r.hi {
      assert At(s, p + 1) == if rest != [] then rest[0] else 0;
    } else {
      assert s[p + 1] == DASH && s[p + 2] == r.hi;
    }
  }

  lemma FirstMayPrecede(rs: seq<Range>, after: seq<byte>)
    requires Writable(rs) && rs != [] && MayPrecede(rs, after)
    ensures Writable(rs[1..]) && MayPrecede(rs[1..], after) && MayPrecede([rs[0]], Written(rs[1..]) + after)
  {
    WrittenTail(rs);
    WrittenIsNulFree(rs[1..]);
    assert |rs| > 1 ==> rs[1..][0] == rs[1] && rs[1..][|rs| - 2] == rs[|rs| - 1];
  }

  lemma SomeRange(rs: seq<Range>, c: byte)
    requires rs != []
    ensures (exists k | 0 <= k < |rs| :: rs[k].Has(c)) <==> rs[0].Has(c) || exists k | 0 <= k < |rs| - 1 :: rs[1..][k].Has(c)
  {
    if k :| 0 < k < |rs| && rs[k].Has(c) {
      assert rs[1..][k - 1].Has(c);
    }
  }

  /** A list of ranges that is written between two other pieces is read as it was meant,
      and reading goes on behind it. */
  lemma {:induction false} WrittenReadsOn(rs: seq<Range>, before: seq<byte>, after: seq<byte>, c: byte)
    requires Writable(rs) && MayPrecede(rs, after)
    ensures var s := before + Written(rs) + after;
      InRanges(s, |before|, c) <==> (exists k | 0 <= k < |rs| :: rs[k].Has(c)) || InRanges(s, |before + Written(rs)|, c)
    decreases |rs|
  {
    if rs == [] {
      assert before + [] == before;
    } else {
      var rest := Written(rs[1..]);
      FirstMayPrecede(rs, after);
      FirstIsSpelled(before, rs[0], rest + after);
      Regroup(before, Spelling(rs[0]), rest, after, Written(rs));
      WrittenReadsOn(rs[1..], before + Spelling(rs[0]), after, c);
      SomeRange(rs, c);
    }
  }

  lemma Regroup(before: seq<byte>, first: seq<byte>, rest: seq<byte>, after: seq<byte>, all: seq<byte>)
    requires all == first + rest
    ensures before + all + after == before + first + (rest + after) == before + first + rest + after
    ensures |before + all| == |before + first + rest|
  {
    assert before + all + after == before + first + rest + after;
  }

  lemma WrittenReadsFirst(rs: seq<Range>, after: seq<byte>, c: byte)
    requires Writable(rs) && MayPrecede(rs, after)
    ensures var s := Written(rs) + after;
      InRanges(s, 0, c) <==> (exists k | 0 <= k < |rs| :: rs[k].Has(c)) || InRanges(s, |Written(rs)|, c)
  {
    WrittenReadsOn(rs, [], after, c);
    assert [] + Written(rs) == Written(rs);
  }

  /** Any list of ranges that is written as a string is read back as it was meant. */
  lemma WrittenReadsBack(rs: seq<Range>, c: byte)
    requires Writable(rs) && rs != []
    ensures Covers(Written(rs), c) <==> exists k | 0 <= k < |rs| :: rs[k].Has(c)
  {
    WrittenIsNulFree(rs);
    WrittenReadsFirst(rs, [], c);
    assert Written(rs) + [] == Written(rs);
  }

  /** A dash at the end of a rule covers itself, but takes away the byte before it. */
  lemma TrailingDash(rs: seq<Range>, x: byte, c: byte)
    requires Writable(rs) && x != 0 && MayPrecede(rs, [x, DASH])
    ensures Covers(Written(rs) + [x, DASH], c) <==> (exists k | 0 <= k < |rs| :: rs[k].Has(c)) || c == DASH
  {
    WrittenReadsFirst(rs, [x, DASH], c);
    DashEnds(Written(rs) + [x, DASH], |Written(rs)|, x, c);
  }

  lemma DashEnds(s: seq<byte>, p: nat, x: byte, c: byte)
    requires |s| == p + 2 && s[p] == x && x != 0 && s[p + 1] == DASH
    ensures InRanges(s, p, c) <==> c == DASH
  {
    assert First(s, p) == Range(x, 0) && After(s, p) == p + 1;
    assert First(s, p + 1) == Range(DASH, DASH) && After(s, p + 1) == p + 2;
    assert InRanges(s, p + 1, c) <==> c == DASH;
  }

  /** The last rule that covers c, among the first n; -1 if there is none. */
  function LastRule(rules: seq<Rule>, n: nat, c: byte): (k: int)
    requires n <= |rules|
    ensures -1 <= k < n && (k >= 0 ==> Covers(rules[k].ranges, c))
    ensures forall j | k < j < n :: !Covers(rules[j].ranges, c)
  {
    if n == 0 then -1
    else if Covers(rules[n - 1].ranges, c) then n - 1
    else LastRule(rules, n - 1, c)
  }

  class Tables {
    const score: array<int>
    const rep: array<int>

    ghost predicate Valid()
      reads this
    {
      score.Length == 256 && rep.Length == 256 && score != rep
    }

    /** Static storage: all zero. */
    constructor ()
      ensures Valid() && fresh(score) && fresh(rep) && Zero()
    {
      score, rep := new int[256](_ => 0), new int[256](_ => 0);
    }

    predicate Zero()
      requires Valid()
      reads this, score, rep
    {
      forall c: byte :: score[c] == 0 && rep[c] == 0
    }

    method SetRange(r: Range, rule: Rule)
      requires Valid()
      modifies score, rep
      ensures forall c: byte :: score[c] == if r.Has(c) then rule.score else old(score[c])
      ensures forall c: byte :: rep[c] == if r.Has(c) then rule.rep else old(rep[c])
    {
      var i: nat := r.lo;
      while i <= r.hi
        invariant r.lo <= i && (i <= r.hi || i == r.hi + 1 || i == r.lo)
        invariant forall c: byte :: score[c] == if r.Has(c) && c < i then rule.score else old(score[c])
        invariant forall c: byte :: rep[c] == if r.Has(c) && c < i then rule.rep else old(rep[c])
      {
        score[i], rep[i] := rule.score, rule.rep;
        i := i + 1;
      }
    }

    method NextRange(s: seq<byte>, p: nat) returns (r: Range, q: nat)
      requires NulFree(s) && p <= |s|
      ensures if p == |s| then r == Range(0, 0) && q == p + 1 else r == First(s, p) && q == After(s, p)
    {
      var a := At(s, p);
      var b := a;
      q := p + 1;
      if a != 0 && At(s, q) == DASH {
        b := At(s, q + 1);
        if b != 0 {
          q := q + 2;
        }
      }
      r := Range(a, b);
    }

    method ApplyRule(rule: Rule)
      requires Valid() && rule.Valid()
      modifies score, rep
      ensures forall c: byte :: score[c] == if Covers(rule.ranges, c) then rule.score else old(score[c])
      ensures forall c: byte :: rep[c] == if Covers(rule.ranges, c) then rule.rep else old(rep[c])
    {
      var s := rule.ranges;
      var r, p := NextRange(s, 0);
      SetRange(r, rule);
      ghost var done := iset c: byte | r.Has(c);
      while r.lo != 0 && At(s, p) != 0
        invariant 0 < p <= |s| || (s == [] && r == Range(0, 0))
        invariant s == [] ==> r.lo == 0 && forall c: byte :: c in done <==> c == 0
        invariant s != [] ==> r.lo != 0 && forall c: byte :: Covers(s, c) <==> c in done || InRanges(s, p, c)
        invariant forall c: byte :: score[c] == if c in done then rule.score else old(score[c])
        invariant forall c: byte :: rep[c] == if c in done then rule.rep else old(rep[c])
        decreases |s| - p
      {
        r, p := NextRange(s, p);
        SetRange(r, rule);
        done := done + iset c: byte | r.Has(c);
      }
    }

    /** Later rules override earlier ones. */
    method MakeLuts(rules: seq<Rule>)
      requires Valid() && Zero() && forall k | 0 <= k < |rules| :: rules[k].Valid()
      modifies score, rep
      ensures forall c: byte :: var k := LastRule(rules, |rules|, c);
        score[c] == (if k >= 0 then rules[k].score else 0) && rep[c] == (if k >= 0 then rules[k].rep else 0)
    {
      for n := 0 to |rules|
        invariant forall c: byte :: var k := LastRule(rules, n, c);
          score[c] == (if k >= 0 then rules[k].score else 0) && rep[c] == (if k >= 0 then rules[k].rep else 0)
      {
        ApplyRule(rules[n]);
      }
    }
  }

  // ---- the rules that the program is built with ----

  const EVERYTHING: seq<byte> := [0x01, DASH, 0xFF]
  const CONTROL: seq<byte> := [0x01, DASH, 0x1F]
  const EIGHT_BIT: seq<byte> := [0x80, DASH, 0xFF]
  const NOT_LATIN1: seq<byte> := [0x7F, DASH, 0x9F]
  const WINDOWS: seq<byte> := [0x82, DASH, 0x8C, 0x91, DASH, 0x9C, 0x9F]
  const RARE_CONTROL: seq<byte> := [0x04, 0x07, 0x08, 0x0C, 0x1B]
  const WHITESPACE: seq<byte> := [32, 9, 13, 10]
  const LETTERS: seq<byte> := [97, DASH, 122, 65, DASH, 90, 48, DASH, 57]

  const RULES: seq<Rule> := [
    Rule(0, 120, EVERYTHING),
    Rule(4, 0, CONTROL),
    Rule(1, 8, EIGHT_BIT),
    Rule(2, 0, NOT_LATIN1),
    Rule(1, 0, WINDOWS),
    Rule(2, 0, RARE_CONTROL),
    Rule(10, 0, []),
    Rule(3, 0, [0xFF]),
    Rule(-1, 180, WHITESPACE),
    Rule(-2, 80, LETTERS)]

  lemma DashRange(s: seq<byte>, p: nat, c: byte)
    requires p + 2 < |s| && s[p + 1] == DASH
    ensures InRanges(s, p, c) <==> s[p] <= c <= s[p + 2] || InRanges(s, p + 3, c)
  {
  }

  lemma RuleRanges(c: byte)
    ensures Covers(EVERYTHING, c) <==> c != 0
    ensures Covers(CONTROL, c) <==> 1 <= c < 32
    ensures Covers(EIGHT_BIT, c) <==> c >= 128
    ensures Covers(NOT_LATIN1, c) <==> 127 <= c < 160
    ensures Covers([0xFF], c) <==> c == 255
  {
    DashRange(EVERYTHING, 0, c);
    DashRange(CONTROL, 0, c);
    DashRange(EIGHT_BIT, 0, c);
    DashRange(NOT_LATIN1, 0, c);
  }

  lemma RuleLists(c: byte)
    ensures Covers(WINDOWS, c) <==> 0x82 <= c <= 0x8C || 0x91 <= c <= 0x9C || c == 0x9F
    ensures Covers(RARE_CONTROL, c) <==> c in {4, 7, 8, 12, 27}
    ensures Covers(WHITESPACE, c) <==> c in {32, 9, 10, 13}
    ensures Covers(LETTERS, c) <==> 97 <= c <= 122 || 65 <= c <= 90 || 48 <= c <= 57
  {
    DashRange(WINDOWS, 0, c);
    DashRange(WINDOWS, 3, c);
    DashRange(LETTERS, 0, c);
    DashRange(LETTERS, 3, c);
    DashRange(LETTERS, 6, c);
    assert InRanges(RARE_CONTROL, 3, c) <==> c in {12, 27};
    assert InRanges(RARE_CONTROL, 1, c) <==> c in {7, 8, 12, 27};
    assert InRanges(WHITESPACE, 2, c) <==> c in {10, 13};
  }

  /** What the first n rules score. */
  function ScoreOf(rules: seq<Rule>, n: nat, c: byte): int
    requires n <= |rules|
  {
    var k := LastRule(rules, n, c);
    if k >= 0 then rules[k].score else 0
  }

  function RepOf(rules: seq<Rule>, n: nat, c: byte): int
    requires n <= |rules|
  {
    var k := LastRule(rules, n, c);
    if k >= 0 then rules[k].rep else 0
  }

  lemma NextRule(rules: seq<Rule>, n: nat, c: byte)
    requires n < |rules|
    ensures LastRule(rules, n + 1, c) == if Covers(rules[n].ranges, c) then n else LastRule(rules, n, c)
  {
  }

  lemma EarlyRules(c: byte)
    ensures LastRule(RULES, 5, c) ==
      if 0x82 <= c <= 0x8C || 0x91 <= c <= 0x9C || c == 0x9F then 4
      else if 127 <= c < 160 then 3
      else if c >= 128 then 2
      else if 1 <= c < 32 then 1
      else if c != 0 then 0 else -1
  {
    RuleRanges(c);
    RuleLists(c);
    NextRule(RULES, 0, c);
    NextRule(RULES, 1, c);
    NextRule(RULES, 2, c);
    NextRule(RULES, 3, c);
    NextRule(RULES, 4, c);
  }

  lemma LateRules(c: byte)
    ensures LastRule(RULES, 10, c) ==
      if 97 <= c <= 122 || 65 <= c <= 90 || 48 <= c <= 57 then 9
      else if c in {32, 9, 10, 13} then 8
      else if c == 255 then 7
      else if c == 0 then 6
      else if c in {4, 7, 8, 12, 27} then 5
      else LastRule(RULES, 5, c)
  {
    RuleRanges(c);
    RuleLists(c);
    NextRule(RULES, 5, c);
    NextRule(RULES, 6, c);
    NextRule(RULES, 7, c);
    NextRule(RULES, 8, c);
    NextRule(RULES, 9, c);
  }

  /** The default scores, byte by byte. */
  lemma DefaultScores(c: byte)
    ensures ScoreOf(RULES, 10, c) ==
      if c == 0 then 10
      else if c in {9, 10, 13, 32} then -1
      else if c in {4, 7, 8, 12, 27} then 2
      else if c < 32 then 4
      else if 48 <= c <= 57 || 65 <= c <= 90 || 97 <= c <= 122 then -2
      else if c < 127 then 0
      else if 0x82 <= c <= 0x8C || 0x91 <= c <= 0x9C || c == 0x9F then 1
      else if c < 160 then 2
      else if c < 255 then 1
      else 3
  {
    EarlyRules(c);
    LateRules(c);
  }

  /** The default numbers of repeats; 0 is no limit. */
  lemma DefaultRepeats(c: byte)
    ensures RepOf(RULES, 10, c) ==
      if c in {9, 10, 13, 32} then 180
      else if 48 <= c <= 57 || 65 <= c <= 90 || 97 <= c <= 122 then 80
      else if 32 < c < 127 then 120
      else if 160 <= c < 255 then 8
      else 0
  {
    EarlyRules(c);
    LateRules(c);
  }

  /** The letters are what can be printed in ASCII, tab, newline and carriage return; and a
      single NUL scores more than the highest score that goes on by default. */
  lemma DefaultLetters(c: byte)
    ensures ScoreOf(RULES, 10, c) <= 0 <==> 32 <= c < 127 || c in {9, 10, 13}
    ensures c == 0 ==> ScoreOf(RULES, 10, c) == 10
  {
    DefaultScores(c);
  }
}
