/** Character-level syntax used by the column text-file reader of SKIRT (SKIRT/core/TextInFile.cpp):
    the line splitting of std::getline, the structured header-line grammar (written out here instead
    of a regular-expression engine), and the number extraction done by `std::stringstream >> x`.
    Floating-point conversion stays abstract (datatype FloatText). */
module TextSyntax {
  import opened Common

  //============= Character classes =============

  /** The characters skipped between header lines (TextInFile.cpp:51) and before a non-leaf line (:298). */
  predicate IsStreamSpace(c: char) { c == ' ' || c == '\t' || c == '\n' || c == '\r' }

  /** isspace() in the C locale: the class \s of the header syntax and the whitespace skipped by `>>`. */
  predicate IsSpace(c: char) {
    c == ' ' || c == '\t' || c == '\n' || c == '\U{B}' || c == '\U{C}' || c == '\r'
  }

  /** The characters that find_first_not_of(" \t") skips when readRow tests for a blank line. */
  predicate IsBlank(c: char) { c == ' ' || c == '\t' }

  predicate IsDigit(c: char) { '0' <= c <= '9' }

  /** The characters allowed in a unit string of a header line: [a-zA-Z0-9/]. */
  predicate IsUnitChar(c: char) { 'a' <= c <= 'z' || 'A' <= c <= 'Z' || IsDigit(c) || c == '/' }

  /** The characters allowed in a header description: [^()]. */
  predicate IsNotParen(c: char) { c != '(' && c != ')' }

  /** ASCII case folding, as applied by a case-insensitive regular expression in the C locale. */
  function ToLower(c: char): char { if 'A' <= c <= 'Z' then (c as int + 32) as char else c }

  predicate All(s: seq<char>, p: char -> bool) { forall k :: 0 <= k < |s| ==> p(s[k]) }

  /** The length of the longest prefix of `s` whose characters all satisfy `p`. */
  function Span(s: seq<char>, p: char -> bool): (n: nat)
    ensures n <= |s|
    ensures forall k :: 0 <= k < n ==> p(s[k])
    ensures n < |s| ==> !p(s[n])
  {
    if s != [] && p(s[0]) then 1 + Span(s[1..], p) else 0
  }

  /** A span is determined by where the property first fails. */
  lemma {:induction false} SpanOfPrefix(a: seq<char>, b: seq<char>, p: char -> bool)
    requires All(a, p) && (b == [] || !p(b[0]))
    ensures Span(a + b, p) == |a|
  {
    if a == [] {
      assert a + b == b;
    } else {
      assert (a + b)[1..] == a[1..] + b;
      SpanOfPrefix(a[1..], b, p);
    }
  }

  /** The longest prefix of `s` whose characters satisfy `p`, and the text after it. */
  function Take(s: seq<char>, p: char -> bool): (r: (seq<char>, seq<char>))
    ensures r.0 + r.1 == s && All(r.0, p) && (r.1 == [] || !p(r.1[0]))
  {
    var n := Span(s, p);
    assert s[..n] + s[n..] == s;
    (s[..n], s[n..])
  }

  lemma TakeOfPrefix(a: seq<char>, b: seq<char>, p: char -> bool)
    requires All(a, p) && (b == [] || !p(b[0]))
    ensures Take(a + b, p) == (a, b)
  {
    SpanOfPrefix(a, b, p);
    assert (a + b)[..|a|] == a && (a + b)[|a|..] == b;
  }

  //============= Lines =============

  /** std::getline: the characters before the first line feed, and the input after that line feed. */
  function GetLine(s: seq<char>): (r: (seq<char>, seq<char>))
    ensures '\n' !in r.0 && |r.0| <= |s|
    ensures |r.0| == |s| ==> r.0 == s && r.1 == []
    ensures |r.0| < |s| ==> s == r.0 + "\n" + r.1
    ensures s != [] ==> |r.1| < |s|
  {
    if s == [] then ([], [])
    else if s[0] == '\n' then ([], s[1..])
    else
      var (line, rest) := GetLine(s[1..]);
      ([s[0]] + line, rest)
  }

  /** getline returns exactly the line that was written, whatever follows its line feed. */
  lemma {:induction false} GetLineOf(line: seq<char>, rest: seq<char>)
    requires '\n' !in line
    ensures GetLine(line + "\n" + rest) == (line, rest)
  {
    var s := line + "\n" + rest;
    if line == [] {
      assert s == "\n" + rest && s[1..] == rest;
    } else {
      assert s[0] == line[0] && s[1..] == line[1..] + "\n" + rest;
      GetLineOf(line[1..], rest);
      assert [line[0]] + line[1..] == line;
    }
  }

  /** A line that readRow skips: empty, only blanks, or a comment after leading blanks (TextInFile.cpp:236-237). */
  predicate IsSkippedLine(line: seq<char>) {
    var pos := Span(line, IsBlank);
    pos == |line| || line[pos] == '#'
  }

  //============= Structured header lines =============

  /** The information carried by a structured header line `# column N : description (unit)`. */
  datatype InfoLine = InfoLine(index: nat, description: string, unit: string)

  // A structured header line follows the case-insensitive syntax
  //     #\s*column\s*(\d+)\s*:\s*([^()]*)\(\s*([a-zA-Z0-9/]*)\s*\)\s*
  // (TextInFile.cpp:63-64). The three datatypes below cut such a line at the boundaries of that
  // syntax: the text after the opening parenthesis, the text after the colon, and the whole line.

  /** The text after the opening parenthesis: `\s*([a-zA-Z0-9/]*)\s*\)\s*`. */
  datatype UnitPart = UnitPart(space5: string, unit: string, space6: string, space7: string)

  /** The text after the colon: `\s*([^()]*)\(` followed by a UnitPart. */
  datatype LabelPart = LabelPart(space4: string, description: string, units: UnitPart)

  /** A whole header line: `#\s*column\s*(\d+)\s*:` followed by a LabelPart. */
  datatype HeaderPieces = HeaderPieces(space1: string, keyword: string, space2: string,
                                       digits: string, space3: string, afterColon: LabelPart)

  predicate IsKeyword(w: string) {
    |w| == 6 && forall k :: 0 <= k < 6 ==> ToLower(w[k]) == "column"[k]
  }

  /** Pieces cut as the leftmost-greedy match cuts them: the blanks inside empty unit parentheses
      all belong to space5. */
  predicate UnitWellFormed(u: UnitPart) {
    && All(u.space5, IsSpace)
    && All(u.unit, IsUnitChar)
    && All(u.space6, IsSpace)
    && (u.unit == [] ==> u.space6 == [])
    && All(u.space7, IsSpace)
  }

  /** The description starts at the first non-space after the colon and runs up to the opening
      parenthesis, so it keeps any blanks before that parenthesis. */
  predicate LabelWellFormed(l: LabelPart) {
    && All(l.space4, IsSpace)
    && All(l.description, IsNotParen)
    && (l.description == [] || !IsSpace(l.description[0]))
    && UnitWellFormed(l.units)
  }

  predicate WellFormed(p: HeaderPieces) {
    && All(p.space1, IsSpace)
    && IsKeyword(p.keyword)
    && All(p.space2, IsSpace)
    && |p.digits| > 0 && All(p.digits, IsDigit)
    && All(p.space3, IsSpace)
    && LabelWellFormed(p.afterColon)
  }

  function AssembleUnit(u: UnitPart): string {
    u.space5 + (u.unit + (u.space6 + (")" + u.space7)))
  }

  function AssembleLabel(l: LabelPart): string {
    l.space4 + (l.description + ("(" + AssembleUnit(l.units)))
  }

  function Assemble(p: HeaderPieces): string {
    "#" + (p.space1 + (p.keyword + (p.space2 + (p.digits + (p.space3 + (":" + AssembleLabel(p.afterColon)))))))
  }

  function SplitUnitPart(t: string): (r: Option<UnitPart>)
    ensures r.Some? ==> UnitWellFormed(r.value) && AssembleUnit(r.value) == t
  {
    var (s5, t1) := Take(t, IsSpace);
    var (u, t2) := Take(t1, IsUnitChar);
    var (s6, t3) := Take(t2, IsSpace);
    if t3 == [] || t3[0] != ')' then None
    else
      var (s7, t4) := Take(t3[1..], IsSpace);
      if t4 != [] then None
      else
        assert t3[1..] == s7 + t4 == s7;
        UnitJoin(t, s5, t1, u, t2, s6, t3, s7);
        Some(UnitPart(s5, u, s6, s7))
  }

  lemma UnitJoin(t: string, s5: string, t1: string, u: string, t2: string, s6: string, t3: string, s7: string)
    requires s5 + t1 == t && All(s5, IsSpace) && (t1 == [] || !IsSpace(t1[0]))
    requires u + t2 == t1 && All(u, IsUnitChar)
    requires s6 + t3 == t2 && All(s6, IsSpace)
    requires t3 != [] && t3[0] == ')' && t3[1..] == s7 && All(s7, IsSpace)
    ensures UnitWellFormed(UnitPart(s5, u, s6, s7)) && AssembleUnit(UnitPart(s5, u, s6, s7)) == t
  {
    assert s6 != [] ==> t2[0] == s6[0];
    assert u == [] ==> t2 == t1;
    assert t3 == ")" + s7;
  }

  function SplitLabelPart(t: string): (r: Option<LabelPart>)
    ensures r.Some? ==> LabelWellFormed(r.value) && AssembleLabel(r.value) == t
  {
    var (s4, t1) := Take(t, IsSpace);
    var (d, t2) := Take(t1, IsNotParen);
    if t2 == [] || t2[0] != '(' then None
    else
      match SplitUnitPart(t2[1..])
      case None => None
      case Some(u) =>
        assert d != [] ==> t1[0] == d[0];
        LabelJoin(t, s4, t1, d, t2, u);
        Some(LabelPart(s4, d, u))
  }

  lemma LabelJoin(t: string, s4: string, t1: string, d: string, t2: string, u: UnitPart)
    requires s4 + t1 == t && d + t2 == t1 && t2 != [] && t2[0] == '(' && AssembleUnit(u) == t2[1..]
    ensures AssembleLabel(LabelPart(s4, d, u)) == t
  {
    assert t2 == "(" + t2[1..];
  }

  /** Cuts a line into header pieces, or None when the line does not follow the header syntax
      (TextInFile.cpp:63-66). */
  function SplitInfoLine(line: string): (r: Option<HeaderPieces>)
    ensures r.Some? ==> WellFormed(r.value) && Assemble(r.value) == line
  {
    if line == [] || line[0] != '#' then None
    else
      var (s1, t1) := Take(line[1..], IsSpace);
      if |t1| < 6 || !IsKeyword(t1[..6]) then None
      else
        var (s2, t2) := Take(t1[6..], IsSpace);
        var (ds, t3) := Take(t2, IsDigit);
        if ds == [] then None
        else
          var (s3, t4) := Take(t3, IsSpace);
          if t4 == [] || t4[0] != ':' then None
          else
            match SplitLabelPart(t4[1..])
            case None => None
            case Some(l) =>
              HeaderJoin(line, s1, t1, s2, t2, ds, t3, s3, t4, l);
              Some(HeaderPieces(s1, t1[..6], s2, ds, s3, l))
  }

  lemma HeaderJoin(line: string, s1: string, t1: string, s2: string, t2: string, ds: string,
                   t3: string, s3: string, t4: string, l: LabelPart)
    requires line != [] && line[0] == '#' && s1 + t1 == line[1..] && |t1| >= 6
    requires s2 + t2 == t1[6..] && ds + t3 == t2 && s3 + t4 == t3
    requires t4 != [] && t4[0] == ':' && AssembleLabel(l) == t4[1..]
    ensures Assemble(HeaderPieces(s1, t1[..6], s2, ds, s3, l)) == line
  {
    assert t4 == ":" + t4[1..];
    assert t1 == t1[..6] + t1[6..];
    assert line == "#" + line[1..];
  }

  function DigitValue(c: char): nat
    requires IsDigit(c)
  {
    c as int - '0' as int
  }

  function Pow10(k: nat): (p: nat)
    ensures p >= 1
  {
    if k == 0 then 1 else 10 * Pow10(k - 1)
  }

  /** The decimal value of a digit string, as std::stoul reads the matched digits before its range
      check; a string of `k` digits denotes a value below 10^k. */
  function DigitsValue(d: string): (v: nat)
    requires All(d, IsDigit)
    ensures v < Pow10(|d|)
  {
    if d == [] then 0 else 10 * DigitsValue(d[..|d| - 1]) + DigitValue(d[|d| - 1])
  }

  /** ULONG_MAX of a 64-bit unsigned long: std::stoul throws std::out_of_range above it. */
  const ULongMax: nat := 0xFFFF_FFFF_FFFF_FFFF

  lemma {:induction false} Pow10Grows(j: nat, k: nat)
    requires j <= k
    ensures Pow10(j) <= Pow10(k)
    decreases k
  {
    if j < k {
      Pow10Grows(j, k - 1);
    }
  }

  /** Up to nineteen digits always fit an unsigned long; twenty may not. */
  lemma DigitsInRange(d: string)
    requires All(d, IsDigit) && |d| <= 19
    ensures DigitsValue(d) <= ULongMax
  {
    Pow10Grows(|d|, 19);
    assert Pow10(4) == 10_000;
    assert Pow10(9) == 1_000_000_000 by {
      assert Pow10(8) == 100_000_000;
    }
    assert Pow10(14) == 100_000_000_000_000 by {
      assert Pow10(13) == 10_000_000_000_000;
    }
    assert Pow10(19) == 10_000_000_000_000_000_000 by {
      assert Pow10(18) == 1_000_000_000_000_000_000;
    }
  }

  /** The information a header line provides, or None when the line is not a structured header line. */
  function ParseInfoLine(line: string): Option<InfoLine> {
    match SplitInfoLine(line)
    case None => None
    case Some(p) => Some(InfoLine(DigitsValue(p.digits), p.afterColon.description, p.afterColon.units.unit))
  }

  lemma SplitUnitAssembled(u: UnitPart)
    requires UnitWellFormed(u)
    ensures SplitUnitPart(AssembleUnit(u)) == Some(u)
  {
    var r3 := ")" + u.space7;
    var r2 := u.space6 + r3;
    UnitCutsFront(u);
    UnitCutsBack(u);
    SplitUnitPartOf(AssembleUnit(u), u.unit + r2, r2, r3, u);
  }

  /** The first two cuts of an assembled unit part: the leading blanks, then the unit. */
  lemma UnitCutsFront(u: UnitPart)
    requires UnitWellFormed(u)
    ensures var r2 := u.space6 + (")" + u.space7);
            && Take(AssembleUnit(u), IsSpace) == (u.space5, u.unit + r2)
            && Take(u.unit + r2, IsUnitChar) == (u.unit, r2)
  {
    var r2 := u.space6 + (")" + u.space7);
    assert r2[0] == if u.space6 == [] then ')' else u.space6[0];
    assert (u.unit + r2)[0] == if u.unit == [] then ')' else u.unit[0];
    TakeOfPrefix(u.space5, u.unit + r2, IsSpace);
    TakeOfPrefix(u.unit, r2, IsUnitChar);
  }

  /** The last two cuts of an assembled unit part: the blanks before and after the parenthesis. */
  lemma UnitCutsBack(u: UnitPart)
    requires UnitWellFormed(u)
    ensures var r3 := ")" + u.space7;
            Take(u.space6 + r3, IsSpace) == (u.space6, r3) && Take(r3[1..], IsSpace) == (u.space7, [])
  {
    var r3 := ")" + u.space7;
    TakeOfPrefix(u.space6, r3, IsSpace);
    assert r3[1..] == u.space7 + [];
    TakeOfPrefix(u.space7, [], IsSpace);
  }

  /** One unfolding of SplitUnitPart, given the outcome of its four cuts. */
  lemma SplitUnitPartOf(t: string, r1: string, r2: string, r3: string, u: UnitPart)
    requires Take(t, IsSpace) == (u.space5, r1) && Take(r1, IsUnitChar) == (u.unit, r2)
    requires Take(r2, IsSpace) == (u.space6, r3) && r3 == ")" + u.space7
    requires Take(r3[1..], IsSpace) == (u.space7, [])
    ensures SplitUnitPart(t) == Some(u)
  {
  }

  lemma SplitLabelAssembled(l: LabelPart)
    requires LabelWellFormed(l)
    ensures SplitLabelPart(AssembleLabel(l)) == Some(l)
  {
    var r2 := "(" + AssembleUnit(l.units);
    var r1 := l.description + r2;
    assert AssembleLabel(l) == l.space4 + r1;
    TakeOfPrefix(l.space4, r1, IsSpace);
    TakeOfPrefix(l.description, r2, IsNotParen);
    SplitUnitAssembled(l.units);
    SplitLabelPartOf(AssembleLabel(l), r1, r2, l);
  }

  /** One unfolding of SplitLabelPart, given the outcome of its two cuts. */
  lemma SplitLabelPartOf(t: string, r1: string, r2: string, l: LabelPart)
    requires Take(t, IsSpace) == (l.space4, r1) && Take(r1, IsNotParen) == (l.description, r2)
    requires r2 == "(" + AssembleUnit(l.units) && SplitUnitPart(AssembleUnit(l.units)) == Some(l.units)
    ensures SplitLabelPart(t) == Some(l)
  {
    assert r2[1..] == AssembleUnit(l.units);
  }

  /** Every well-formed assembly of pieces is recognised and cut back into the same pieces. With the
      ensures clause of SplitInfoLine this makes the header syntax exactly the set of assemblies of
      well-formed pieces, each line having one cut. */
  lemma SplitAssembled(p: HeaderPieces)
    requires WellFormed(p)
    ensures SplitInfoLine(Assemble(p)) == Some(p)
  {
    var r5 := ":" + AssembleLabel(p.afterColon);
    var r4 := p.space3 + r5;
    var r3 := p.digits + r4;
    var r1 := p.keyword + (p.space2 + r3);
    SplitKeywordAssembled(p, r1, r3);
    SplitNumberAssembled(p, r3, r4, r5);
    SplitInfoLineOf(Assemble(p), r1, r3, r4, r5, p);
  }

  lemma SplitKeywordAssembled(p: HeaderPieces, r1: string, r3: string)
    requires WellFormed(p) && r3 == p.digits + (p.space3 + (":" + AssembleLabel(p.afterColon)))
    requires r1 == p.keyword + (p.space2 + r3)
    ensures Take(Assemble(p)[1..], IsSpace) == (p.space1, r1)
    ensures |r1| >= 6 && r1[..6] == p.keyword && Take(r1[6..], IsSpace) == (p.space2, r3)
  {
    var line := Assemble(p);
    assert line == "#" + (p.space1 + r1);
    assert ToLower(p.keyword[0]) == 'c';
    TakeOfPrefix(p.space1, r1, IsSpace);
    assert r1[..6] == p.keyword && r1[6..] == p.space2 + r3;
    assert r3[0] == p.digits[0] && IsDigit(p.digits[0]);
    TakeOfPrefix(p.space2, r3, IsSpace);
  }

  lemma SplitNumberAssembled(p: HeaderPieces, r3: string, r4: string, r5: string)
    requires WellFormed(p) && r5 == ":" + AssembleLabel(p.afterColon)
    requires r4 == p.space3 + r5 && r3 == p.digits + r4
    ensures Take(r3, IsDigit) == (p.digits, r4) && Take(r4, IsSpace) == (p.space3, r5)
    ensures r5 != [] && r5[0] == ':' && SplitLabelPart(r5[1..]) == Some(p.afterColon)
  {
    assert r4[0] == if p.space3 == [] then ':' else p.space3[0];
    TakeOfPrefix(p.digits, r4, IsDigit);
    TakeOfPrefix(p.space3, r5, IsSpace);
    assert r5[1..] == AssembleLabel(p.afterColon);
    SplitLabelAssembled(p.afterColon);
  }

  /** One unfolding of SplitInfoLine, given the outcome of each of its cuts. */
  lemma SplitInfoLineOf(line: string, r1: string, r3: string, r4: string, r5: string, p: HeaderPieces)
    requires line != [] && line[0] == '#' && Take(line[1..], IsSpace) == (p.space1, r1)
    requires |r1| >= 6 && r1[..6] == p.keyword && IsKeyword(p.keyword)
    requires Take(r1[6..], IsSpace) == (p.space2, r3) && Take(r3, IsDigit) == (p.digits, r4)
    requires p.digits != [] && Take(r4, IsSpace) == (p.space3, r5)
    requires r5 != [] && r5[0] == ':' && SplitLabelPart(r5[1..]) == Some(p.afterColon)
    ensures SplitInfoLine(line) == Some(p)
  {
  }


  //============= Decimal text of numbers =============

  function DigitChar(d: nat): (c: char)
    requires d < 10
    ensures IsDigit(c) && DigitValue(c) == d
  {
    ('0' as int + d) as char
  }

  /** The shortest decimal text of a natural number. */
  function NatText(n: nat): (d: string)
    ensures |d| > 0 && All(d, IsDigit)
  {
    if n < 10 then [DigitChar(n)] else NatText(n / 10) + [DigitChar(n % 10)]
  }

  lemma {:induction false} NatTextRoundTrip(n: nat)
    ensures DigitsValue(NatText(n)) == n
  {
    if n >= 10 {
      var d := NatText(n);
      assert d[..|d| - 1] == NatText(n / 10);
      NatTextRoundTrip(n / 10);
    }
  }

  /** The decimal text of an integer, with a minus sign when it is negative. */
  function IntText(v: int): string {
    if v < 0 then "-" + NatText(-v) else NatText(v)
  }

  //============= Stream extraction =============

  const IntMin: int := -0x8000_0000
  const IntMax: int := 0x7FFF_FFFF

  /** One extraction `stream >> n` of a 32-bit int from the text `s`: leading whitespace is skipped,
      an optional sign and at least one decimal digit are read, and the extraction fails when there
      are no digits or the value is out of range. On success the unread text is returned. */
  function ExtractInt(s: string): (r: Option<(int, string)>)
    ensures r.Some? ==> IntMin <= r.value.0 <= IntMax
  {
    var t := Take(s, IsSpace).1;
    if t != [] && t[0] == '-' then ExtractMagnitude(t[1..], true)
    else if t != [] && t[0] == '+' then ExtractMagnitude(t[1..], false)
    else ExtractMagnitude(t, false)
  }

  /** The digits after the optional sign of an int extraction, and the range check of the value. */
  function ExtractMagnitude(t: string, negative: bool): (r: Option<(int, string)>)
    ensures r.Some? ==> IntMin <= r.value.0 <= IntMax
  {
    var (d, rest) := Take(t, IsDigit);
    if d == [] then None
    else
      var magnitude: int := DigitsValue(d);
      var v := if negative then -magnitude else magnitude;
      if v < IntMin || v > IntMax then None else Some((v, rest))
  }

  /** Extraction reads back what IntText writes, after any whitespace, up to the first non-digit. */
  lemma ExtractIntText(w: string, v: int, rest: string)
    requires All(w, IsSpace) && IntMin <= v <= IntMax
    requires rest == [] || !IsDigit(rest[0])
    ensures ExtractInt(w + (IntText(v) + rest)) == Some((v, rest))
  {
    var mag := if v < 0 then -v else v;
    var x := IntText(v) + rest;
    DigitsOfIntText(v, rest);
    TakeOfPrefix(w, x, IsSpace);
    NatTextRoundTrip(mag);
    ExtractIntOf(w + x, x, NatText(mag), rest, v < 0);
  }

  /** After its optional minus sign, the text of an integer is the run of digits of its magnitude. */
  lemma DigitsOfIntText(v: int, rest: string)
    requires rest == [] || !IsDigit(rest[0])
    ensures var d := NatText(if v < 0 then -v else v);
            var x := IntText(v) + rest;
            && x != [] && (if v < 0 then x[0] == '-' else IsDigit(x[0])) && !IsSpace(x[0])
            && Take(if v < 0 then x[1..] else x, IsDigit) == (d, rest) && d != []
  {
    var d := NatText(if v < 0 then -v else v);
    var x := IntText(v) + rest;
    assert IsDigit(d[0]);
    if v < 0 {
      assert x == "-" + (d + rest);
      assert x[1..] == d + rest;
    } else {
      assert x == d + rest;
    }
    TakeOfPrefix(d, rest, IsDigit);
  }

  /** One unfolding of ExtractInt, given the outcome of its two cuts. */
  lemma ExtractIntOf(s: string, t: string, d: string, rest: string, negative: bool)
    requires Take(s, IsSpace).1 == t && t != []
    requires if negative then t[0] == '-' else IsDigit(t[0])
    requires Take(if negative then t[1..] else t, IsDigit) == (d, rest) && d != []
    requires IntMin <= (if negative then -(DigitsValue(d) as int) else DigitsValue(d)) <= IntMax
    ensures ExtractInt(s) == Some((if negative then -(DigitsValue(d) as int) else DigitsValue(d), rest))
  {
    assert ExtractMagnitude(if negative then t[1..] else t, negative)
           == Some((if negative then -(DigitsValue(d) as int) else DigitsValue(d), rest));
  }

  /** `k` successive extractions `stream >> n`: the values read and the unread text, or None when
      one of them fails. */
  function ExtractInts(s: string, k: nat): (r: Option<(seq<int>, string)>)
    ensures r.Some? ==> |r.value.0| == k
  {
    if k == 0 then Some(([], s))
    else
      match ExtractInt(s)
      case None => None
      case Some((v, t)) =>
        match ExtractInts(t, k - 1)
        case None => None
        case Some((vs, u)) => Some(([v] + vs, u))
  }

  /** Every integer that `k` extractions read lies in the range of an int. */
  lemma {:induction false} ExtractIntsInRange(s: string, k: nat)
    ensures var r := ExtractInts(s, k);
            r.Some? ==> forall i :: 0 <= i < k ==> IntMin <= r.value.0[i] <= IntMax
  {
    var r := ExtractInts(s, k);
    if k > 0 && r.Some? {
      var (v, t) := ExtractInt(s).value;
      var vs := ExtractInts(t, k - 1).value.0;
      ExtractIntsInRange(t, k - 1);
      assert r.value.0 == [v] + vs;
      forall i | 0 <= i < k
        ensures IntMin <= r.value.0[i] <= IntMax
      {
        if i > 0 {
          assert r.value.0[i] == vs[i - 1];
        }
      }
    }
  }

  /** Integers written one after the other, each preceded by a space, followed by `tail`. */
  function SpacedText(vs: seq<int>, tail: string): string {
    if vs == [] then tail else " " + (IntText(vs[0]) + SpacedText(vs[1..], tail))
  }

  /** Extraction reads back every integer that SpacedText writes, and stops in front of `tail`. */
  lemma {:induction false} ExtractIntsText(vs: seq<int>, tail: string)
    requires forall k :: 0 <= k < |vs| ==> IntMin <= vs[k] <= IntMax
    requires tail == [] || !IsDigit(tail[0])
    ensures ExtractInts(SpacedText(vs, tail), |vs|) == Some((vs, tail))
  {
    if vs != [] {
      var after := SpacedText(vs[1..], tail);
      ExtractIntsText(vs[1..], tail);
      SpacedTextStart(vs[1..], tail);
      ExtractIntText(" ", vs[0], after);
      assert SpacedText(vs, tail) == " " + (IntText(vs[0]) + after);
      ExtractIntsStep(SpacedText(vs, tail), vs, after, tail);
    }
  }

  lemma SpacedTextStart(vs: seq<int>, tail: string)
    requires tail == [] || !IsDigit(tail[0])
    ensures var t := SpacedText(vs, tail); t == [] || !IsDigit(t[0])
  {
  }

  /** One unfolding of ExtractInts. */
  lemma ExtractIntsStep(s: string, vs: seq<int>, t: string, u: string)
    requires vs != [] && ExtractInt(s) == Some((vs[0], t)) && ExtractInts(t, |vs| - 1) == Some((vs[1..], u))
    ensures ExtractInts(s, |vs|) == Some((vs, u))
  {
    assert [vs[0]] + vs[1..] == vs;
  }

  /** The three subdivision counts of a non-leaf line. */
  datatype Subdivision = Subdivision(nx: int, ny: int, nz: int)

  /** `linestream >> nx >> ny >> nz` followed by the fail() test (TextInFile.cpp:289-292). */
  function ExtractSubdivision(line: string): (r: Option<Subdivision>)
    ensures r.Some? ==> IntMin <= r.value.nx <= IntMax && IntMin <= r.value.ny <= IntMax
                        && IntMin <= r.value.nz <= IntMax
  {
    ExtractIntsInRange(line, 3);
    match ExtractInts(line, 3)
    case None => None
    case Some((v, _)) => Some(Subdivision(v[0], v[1], v[2]))
  }

  /** The text " nx ny nz" written with IntText reads back as the same three counts. */
  lemma ExtractSubdivisionText(nx: int, ny: int, nz: int, tail: string)
    requires IntMin <= nx <= IntMax && IntMin <= ny <= IntMax && IntMin <= nz <= IntMax
    requires tail == [] || !IsDigit(tail[0])
    ensures ExtractSubdivision(SpacedText([nx, ny, nz], tail)) == Some(Subdivision(nx, ny, nz))
  {
    ExtractIntsText([nx, ny, nz], tail);
  }

  /** The floating-point parts of the reader that this model keeps abstract: the number of leading
      characters that `stream >> x` consumes as a floating-point number (0 when none), the value of
      such text, the library function pow, and the rounded product of two doubles. */
  datatype FloatText = FloatText(numberLength: string -> nat, valueOf: string -> real,
                                 power: (real, int) -> real, product: (real, real) -> real)

  /** The length of the number at the start of `s`; the scanner never reads past the end of the text. */
  function NumberLength(ft: FloatText, s: string): (n: nat)
    ensures n <= |s|
  {
    var n := ft.numberLength(s);
    if n <= |s| then n else |s|
  }

  /** One extraction `stream >> x` of a double: whitespace is skipped, then the number is read;
      the extraction fails when the text is exhausted or does not start with a number. */
  function ExtractDouble(ft: FloatText, s: string): (r: Option<(real, string)>)
    ensures r.Some? ==> |r.value.1| < |s|
  {
    var t := s[Span(s, IsSpace)..];
    var n := NumberLength(ft, t);
    if n == 0 then None else Some((ft.valueOf(t[..n]), t[n..]))
  }
}
