/** What a recipe file says (parse_recipe of src/magicrescue.c), before it is split into
    one scanner and a list of operations. */
module RecipeFile {
  import opened Bits
  import opened Recipes
  import opened Scanners
  import opened Util

  /** A line as sscanf takes it apart. text is the parameter of a match line and words are
      what "%15s %15s" finds in it. */
  datatype Line =
    | MatchLine(offset: nat, opname: string, text: seq<byte>, words: seq<seq<byte>>)
    | AllowOverlapLine(bytes: int)
    | CommandLine
    | OtherDirective
    | Ignored
    | InvalidLine

  predicate IsStringLine(l: Line) {
    l.MatchLine? && (l.opname == "string" || l.opname == "char")
  }

  /** The match operation a line stands for, if its parameter is any good. */
  function LineOp(l: Line): Option<Operation>
    requires l.MatchLine?
  {
    if IsStringLine(l) then
      if Decode(l.text) == [] then None else Some(OpString(l.offset, Decode(l.text)))
    else if l.opname == "int32" && |l.words| >= 2 then
      var mask := HexValue(l.words[1]);
      Some(OpInt32(l.offset, And(HexValue(l.words[0]), mask), mask))
    else None
  }

  predicate LineGood(l: Line) {
    !l.InvalidLine? && (l.MatchLine? ==> LineOp(l).Some?)
  }

  /** The files that are accepted. */
  predicate Acceptable(lines: seq<Line>, hasGlobal: bool) {
    && (forall i | 0 <= i < |lines| :: LineGood(lines[i]))
    && CommandLine in lines
    && (hasGlobal || exists i | 0 <= i < |lines| :: IsStringLine(lines[i]))
  }

  predicate LineHolds(l: Line, image: seq<byte>, q: nat) {
    l.MatchLine? ==> LineOp(l).Some? && OpHolds(LineOp(l).value, image, q)
  }

  /** All match operations of the file hold at q. */
  predicate LinesHold(lines: seq<Line>, image: seq<byte>, q: nat) {
    forall i | 0 <= i < |lines| :: LineHolds(lines[i], image, q)
  }

  /** The last allow_overlap directive counts. */
  function AllowOverlap(lines: seq<Line>): int {
    if lines == [] then 0
    else
      var last := lines[|lines| - 1];
      if last.AllowOverlapLine? then last.bytes else AllowOverlap(lines[..|lines| - 1])
  }

  predicate MaybeHit(scanner: Option<Scanner>, image: seq<byte>, q: nat) {
    scanner.Some? ==> Hit(scanner.value, image, q)
  }

  /** Scanner and operations together select the positions where all lines hold and
      where the global scanner, if there is one, stops. */
  ghost predicate SameMeaning(global: Option<Scanner>, lines: seq<Line>, scanner: Option<Scanner>, ops: seq<Operation>) {
    forall image: seq<byte>, q: nat ::
      MaybeHit(scanner, image, q) && AllHold(ops, image, q) <==>
      MaybeHit(global, image, q) && LinesHold(lines, image, q)
  }

  predicate SearchesFor(sc: Scanner, l: Line)
    requires l.MatchLine?
  {
    && sc.offset == l.offset
    && match sc.param
       case ScanChar(c) => Decode(l.text) == [c]
       case ScanString(str, _, _) => Decode(l.text) == str
       case ScanBlock(_) => false
  }

  /** The scanner of a string line finds what the operation of that line accepts. */
  lemma ScannerOfLine(l: Line, sc: Scanner, image: seq<byte>, q: nat)
    requires IsStringLine(l) && LineOp(l).Some? && SearchesFor(sc, l)
    ensures Hit(sc, image, q) <==> LineHolds(l, image, q)
  {
    var p := q + l.offset;
    if sc.param.ScanChar? && p < |image| {
      assert image[p..p + 1] == [image[p]];
    }
  }

  /** A match line that became the scanner function. */
  lemma ScannerLineKeepsMeaning(lines: seq<Line>, l: Line, sc: Scanner, ops: seq<Operation>)
    requires IsStringLine(l) && LineOp(l).Some? && SearchesFor(sc, l)
    requires SameMeaning(None, lines, None, ops)
    ensures SameMeaning(None, lines + [l], Some(sc), ops)
  {
    forall image: seq<byte>, q: nat
      ensures MaybeHit(Some(sc), image, q) && AllHold(ops, image, q) <==> LinesHold(lines + [l], image, q)
    {
      ScannerOfLine(l, sc, image, q);
      LinesHoldSnoc(lines, l, image, q);
      assert MaybeHit(None, image, q) && AllHold(ops, image, q) <==> LinesHold(lines, image, q);
    }
  }

  /** A match line that became an operation. */
  lemma OpLineKeepsMeaning(global: Option<Scanner>, lines: seq<Line>, l: Line, scanner: Option<Scanner>, ops: seq<Operation>)
    requires l.MatchLine? && LineOp(l).Some?
    requires SameMeaning(global, lines, scanner, ops)
    ensures SameMeaning(global, lines + [l], scanner, ops + [LineOp(l).value])
  {
    var op := LineOp(l).value;
    forall image: seq<byte>, q: nat
      ensures MaybeHit(scanner, image, q) && AllHold(ops + [op], image, q) <==>
              MaybeHit(global, image, q) && LinesHold(lines + [l], image, q)
    {
      LinesHoldSnoc(lines, l, image, q);
      AllHoldSnoc(ops, op, image, q);
      assert MaybeHit(scanner, image, q) && AllHold(ops, image, q) <==> MaybeHit(global, image, q) && LinesHold(lines, image, q);
    }
  }

  lemma OtherLineKeepsMeaning(global: Option<Scanner>, lines: seq<Line>, l: Line, scanner: Option<Scanner>, ops: seq<Operation>)
    requires !l.MatchLine? && SameMeaning(global, lines, scanner, ops)
    ensures SameMeaning(global, lines + [l], scanner, ops)
  {
    forall image: seq<byte>, q: nat
      ensures MaybeHit(scanner, image, q) && AllHold(ops, image, q) <==>
              MaybeHit(global, image, q) && LinesHold(lines + [l], image, q)
    {
      LinesHoldSnoc(lines, l, image, q);
    }
  }

  lemma LinesHoldSnoc(lines: seq<Line>, l: Line, image: seq<byte>, q: nat)
    ensures LinesHold(lines + [l], image, q) <==> LinesHold(lines, image, q) && LineHolds(l, image, q)
  {
    var more := lines + [l];
    if LinesHold(more, image, q) {
      assert LineHolds(more[|lines|], image, q);
      forall i | 0 <= i < |lines| ensures LineHolds(lines[i], image, q) {
        assert LineHolds(more[i], image, q);
      }
    }
  }

  lemma AllHoldSnoc(ops: seq<Operation>, op: Operation, image: seq<byte>, q: nat)
    ensures AllHold(ops + [op], image, q) <==> AllHold(ops, image, q) && OpHolds(op, image, q)
  {
    var more := ops + [op];
    if AllHold(more, image, q) {
      assert OpHolds(more[|ops|], image, q);
      forall i | 0 <= i < |ops| ensures OpHolds(ops[i], image, q) {
        assert OpHolds(more[i], image, q);
      }
    }
  }

  // ---- what the lines of a file mean, byte by byte and bit by bit ----

  /** A string or char line: the decoded text occurs at its offset. */
  lemma StringLineExactlyWhen(l: Line, image: seq<byte>, q: nat)
    requires l.MatchLine? && (l.opname == "string" || l.opname == "char")
    ensures var s := Decode(l.text);
      LineHolds(l, image, q) <==>
        s != [] && q + l.offset + |s| <= |image| && forall k | 0 <= k < |s| :: image[q + l.offset + k] == s[k]
  {
    StringHoldsExactlyWhen(l.offset, Decode(l.text), image, q);
  }

  /** An int32 line: the first word is the value, the second one the mask, and the bytes at
      the offset make a word, the most significant one first. */
  lemma Int32LineExactlyWhen(l: Line, image: seq<byte>, q: nat)
    requires l.MatchLine? && l.opname == "int32" && |l.words| >= 2 && |l.words[1]| <= 15
    ensures LineHolds(l, image, q) <==>
      q + l.offset + 4 <= |image| && BitsAgreeAt(image, q + l.offset, HexValue(l.words[0]), HexValue(l.words[1]))
  {
    FifteenDigits(l.words[1]);
    Int32HoldsExactlyWhen(l.offset, HexValue(l.words[0]), HexValue(l.words[1]), image, q);
  }

  lemma FifteenDigits(s: seq<byte>)
    requires |s| <= 15
    ensures HexValue(s) < 0x1_0000_0000_0000_0000
  {
    HexValueBound(s);
    Pow2Grows(4 * |s|, 60);
    Pow2Values();
    Pow2Adds(32, 28);
    Pow2Grows(28, 32);
  }

  /** Any other match line, or one that lacks its parameters, is not accepted. */
  lemma OtherLineExactlyWhen(l: Line)
    requires l.MatchLine?
    ensures LineGood(l) <==>
      || ((l.opname == "string" || l.opname == "char") && Decode(l.text) != [])
      || (l.opname == "int32" && |l.words| >= 2)
  {
  }

  /** A file is accepted if it has a command, a string or char line unless a scanner is
      forced on it, and no line that is invalid. */
  lemma AcceptedExactlyWhen(lines: seq<Line>, hasGlobal: bool)
    ensures Acceptable(lines, hasGlobal) <==>
      && (exists i | 0 <= i < |lines| :: lines[i].CommandLine?)
      && (hasGlobal || exists i | 0 <= i < |lines| :: lines[i].MatchLine? && (lines[i].opname == "string" || lines[i].opname == "char"))
      && (forall i | 0 <= i < |lines| :: !lines[i].InvalidLine? &&
            (lines[i].MatchLine? ==>
               || ((lines[i].opname == "string" || lines[i].opname == "char") && Decode(lines[i].text) != [])
               || (lines[i].opname == "int32" && |lines[i].words| >= 2)))
  {
    assert (CommandLine in lines) <==> exists i | 0 <= i < |lines| :: lines[i].CommandLine?;
    assert (exists i | 0 <= i < |lines| :: IsStringLine(lines[i])) <==>
      exists i | 0 <= i < |lines| :: lines[i].MatchLine? && (lines[i].opname == "string" || lines[i].opname == "char") by {
      if i :| 0 <= i < |lines| && IsStringLine(lines[i]) {
        assert lines[i].MatchLine?;
      }
      if i :| 0 <= i < |lines| && lines[i].MatchLine? && (lines[i].opname == "string" || lines[i].opname == "char") {
        assert IsStringLine(lines[i]);
      }
    }
    forall i | 0 <= i < |lines| && lines[i].MatchLine? {
      OtherLineExactlyWhen(lines[i]);
    }
  }

  /** The bytes that may overlap are those of the last such directive, 0 without one. */
  lemma {:induction false} AllowOverlapIs(lines: seq<Line>)
    ensures (forall i | 0 <= i < |lines| :: !lines[i].AllowOverlapLine?) ==> AllowOverlap(lines) == 0
    ensures forall k | 0 <= k < |lines| && lines[k].AllowOverlapLine?
        && (forall i | k < i < |lines| :: !lines[i].AllowOverlapLine?) :: AllowOverlap(lines) == lines[k].bytes
  {
    if lines == [] {
    } else {
      var n := |lines| - 1;
      AllowOverlapIs(lines[..n]);
      assert forall i | 0 <= i < n :: lines[..n][i] == lines[i];
    }
  }
}
