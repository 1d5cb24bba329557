/** The column text-file reader of SKIRT (SKIRT/core/TextInFile.cpp). The file is the text still to
    be read (`rest`), the structured header is read when the reader is opened, program columns are
    then declared one by one with `AddColumn`, and data is read row by row, as non-leaf lines, or
    all at once as rows or columns. The unit system and the floating-point conversions are abstract
    (UnitSystem, FloatText); a thrown FatalError is a `Fatal` or `Fail` result. */
module TextInFile {
  import opened Common
  import opened TextSyntax

  //============= Column records and errors =============

  /** The record kept per column (TextInFile.cpp:21-32). */
  datatype ColumnInfo = ColumnInfo(title: string, description: string, quantity: string, unit: string,
                                   convFactor: real, waveExponent: int, waveIndex: nat)

  /** A default-constructed record that received a title and a unit. */
  function FreshColumn(title: string, unit: string): ColumnInfo {
    ColumnInfo(title, "", "", unit, 1.0, 0, 0)
  }

  /** Records as the header leaves them: no program information and no conversion yet. */
  predicate AllFresh(colv: seq<ColumnInfo>) {
    forall k :: 0 <= k < |colv| ==>
      colv[k].description == "" && colv[k].quantity == "" && colv[k].convFactor == 1.0
      && colv[k].waveExponent == 0 && colv[k].waveIndex == 0
  }

  /** The errors raised by the reader, with the one-based column number they report: the fatal errors,
      and the std::out_of_range that std::stoul throws for a header column number above ULongMax
      (ColumnNumberOutOfRange). */
  datatype Error =
    | ColumnNumberOutOfRange
    | IncorrectColumnIndex(column: nat)
    | NoColumnInfo(column: nat)
    | InvalidDimensionlessUnits(column: nat)
    | InvalidSpecificUnits(column: nat)
    | NoWavelengthColumn(column: nat)
    | InvalidUnits(column: nat)
    | NoColumnsDeclared
    | MissingValue
    | NotAFloat
    | BadNonLeaf

  /** The unit system consulted by the reader: whether a quantity supports a unit string
      (Units::has), and the factor converting one input unit to internal units (Units::in(q, u, 1.)). */
  datatype UnitSystem = UnitSystem(has: (string, string) -> bool, factor: (string, string) -> real)

  /** `got` placed in front of the values of a successful result. */
  function Prepend<T>(got: seq<T>, r: Result<seq<T>, Error>): Result<seq<T>, Error> {
    match r
    case Fatal(e) => Fatal(e)
    case Ok(xs) => Ok(got + xs)
  }

  lemma PrependNothing<T>(r: Result<seq<T>, Error>)
    ensures Prepend([], r) == r
  {
    if r.Ok? {
      assert [] + r.value == r.value;
    }
  }

  lemma PrependTwice<T>(a: seq<T>, b: seq<T>, r: Result<seq<T>, Error>)
    ensures Prepend(a, Prepend(b, r)) == Prepend(a + b, r)
  {
    if r.Ok? {
      assert a + (b + r.value) == (a + b) + r.value;
    }
  }

  //============= Structured header =============

  /** getNextInfoLine (TextInFile.cpp:42-74): skips blanks and line ends, then reads `#` lines until
      one follows the structured syntax. The header ends at the first other character, which is not
      consumed. The result is the information found, if any, and the text after what was consumed. */
  function NextInfo(s: string): (r: (Option<InfoLine>, string))
    ensures |r.1| <= |s| && r.1 == s[|s| - |r.1|..]
    ensures r.0.Some? ==> |r.1| < |s|
    ensures r.0.None? ==> r.1 == [] || (r.1[0] != '#' && !IsStreamSpace(r.1[0]))
    decreases |s|
  {
    if s != [] && IsStreamSpace(s[0]) then NextInfo(s[1..])
    else if s == [] || s[0] != '#' then (None, s)
    else
      var (line, rest) := GetLine(s);
      assert rest == s[|s| - |rest|..] by {
        if |line| < |s| {
          assert s == (line + "\n") + rest;
        }
      }
      match ParseInfoLine(line)
      case Some(info) => (Some(info), rest)
      case None => NextInfo(rest)
  }

  method GetNextInfoLine(input: string) returns (info: Option<InfoLine>, rest: string)
    ensures (info, rest) == NextInfo(input)
  {
    rest := input;
    while true
      invariant NextInfo(rest) == NextInfo(input)
      decreases |rest|
    {
      while rest != [] && IsStreamSpace(rest[0])
        invariant NextInfo(rest) == NextInfo(input)
        decreases |rest|
      {
        rest := rest[1..];
      }
      if rest == [] || rest[0] != '#' {
        return None, rest;
      }
      var cut := GetLine(rest);
      rest := cut.1;
      match ParseInfoLine(cut.0) {
        case Some(found) => return Some(found), rest;
        case None =>
      }
    }
  }

  /** The constructor's header loop (TextInFile.cpp:128-142) from the text `s`, the records `colv`
      having been read already: every structured line adds a record with its description as title
      and its unit, and must carry the next column number. */
  function HeaderFrom(s: string, colv: seq<ColumnInfo>): (r: Result<(seq<ColumnInfo>, string), Error>)
    ensures r.Ok? && AllFresh(colv) ==> AllFresh(r.value.0)
    decreases |s|
  {
    match NextInfo(s)
    case (None, rest) => Ok((colv, rest))
    case (Some(info), rest) =>
      if info.index > ULongMax then Fatal(ColumnNumberOutOfRange)
      else if info.index != |colv| + 1 then Fatal(IncorrectColumnIndex(|colv| + 1))
      else HeaderFrom(rest, colv + [FreshColumn(info.description, info.unit)])
  }

  method ReadHeader(text: string) returns (r: Result<(seq<ColumnInfo>, string), Error>)
    ensures r == HeaderFrom(text, [])
  {
    var colv: seq<ColumnInfo> := [];
    var rest := text;
    while true
      invariant HeaderFrom(rest, colv) == HeaderFrom(text, [])
      decreases |rest|
    {
      var info, after := GetNextInfoLine(rest);
      match info {
        case None =>
          return Ok((colv, after));
        case Some(found) =>
          if found.index > ULongMax {
            return Fatal(ColumnNumberOutOfRange);
          }
          colv := colv + [FreshColumn(found.description, found.unit)];
          if found.index != |colv| {
            return Fatal(IncorrectColumnIndex(|colv|));
          }
          rest := after;
      }
    }
  }

  /** A header line as written: well-formed pieces and no line feed inside. */
  predicate IsHeaderLine(p: HeaderPieces) {
    WellFormed(p) && '\n' !in Assemble(p)
  }

  /** The header made of the given lines, each ended by a line feed, followed by `body`. */
  function HeaderText(ps: seq<HeaderPieces>, body: string): string {
    if ps == [] then body else Assemble(ps[0]) + "\n" + HeaderText(ps[1..], body)
  }

  /** The records that the header lines `ps` describe. */
  function Columns(ps: seq<HeaderPieces>): (cs: seq<ColumnInfo>)
    ensures |cs| == |ps|
  {
    if ps == [] then []
    else [FreshColumn(ps[0].afterColon.description, ps[0].afterColon.units.unit)] + Columns(ps[1..])
  }

  lemma AppendAssociates<T>(a: seq<T>, b: seq<T>, c: seq<T>)
    ensures (a + b) + c == a + (b + c)
  {
  }

  /** One step of the header loop: a line carrying the expected number adds its record. */
  lemma HeaderFromStep(s: string, colv: seq<ColumnInfo>, info: InfoLine, rest: string)
    requires NextInfo(s) == (Some(info), rest) && info.index == |colv| + 1 <= ULongMax
    ensures HeaderFrom(s, colv) == HeaderFrom(rest, colv + [FreshColumn(info.description, info.unit)])
  {
    assert !(info.index > ULongMax) && info.index == |colv| + 1;
  }

  /** A structured line is recognised with its number, description and unit. */
  lemma NextInfoOfHeaderLine(p: HeaderPieces, rest: string)
    requires IsHeaderLine(p)
    ensures NextInfo(Assemble(p) + "\n" + rest)
            == (Some(InfoLine(DigitsValue(p.digits), p.afterColon.description, p.afterColon.units.unit)), rest)
  {
    var line := Assemble(p);
    assert ParseInfoLine(line)
           == Some(InfoLine(DigitsValue(p.digits), p.afterColon.description, p.afterColon.units.unit)) by {
      SplitAssembled(p);
    }
    NextInfoOfLine(line, rest);
  }

  /** A `#` line that does not follow the structured syntax is consumed and skipped. */
  lemma NextInfoSkipsComment(line: string, rest: string)
    requires line != [] && line[0] == '#' && '\n' !in line && ParseInfoLine(line).None?
    ensures NextInfo(line + "\n" + rest) == NextInfo(rest)
  {
    NextInfoOfLine(line, rest);
  }

  /** One unfolding of NextInfo at a `#` line. */
  lemma NextInfoOfLine(line: string, rest: string)
    requires line != [] && line[0] == '#' && '\n' !in line
    ensures NextInfo(line + "\n" + rest)
            == match ParseInfoLine(line) case Some(info) => (Some(info), rest) case None => NextInfo(rest)
  {
    var s := line + "\n" + rest;
    assert s != [] && s[0] == '#' && !IsStreamSpace(s[0]);
    assert GetLine(s) == (line, rest) by {
      GetLineOf(line, rest);
    }
  }

  /** Header lines as written, carrying the column numbers n, n + 1, n + 2, ... */
  predicate NumberedFrom(ps: seq<HeaderPieces>, n: nat) {
    forall k :: 0 <= k < |ps| ==> IsHeaderLine(ps[k]) && DigitsValue(ps[k].digits) == n + k
  }

  lemma NumberedTail(ps: seq<HeaderPieces>, n: nat)
    requires ps != [] && NumberedFrom(ps, n)
    ensures NumberedFrom(ps[1..], n + 1)
  {
    forall k | 0 <= k < |ps[1..]|
      ensures IsHeaderLine(ps[1..][k]) && DigitsValue(ps[1..][k].digits) == n + 1 + k
    {
      assert ps[1..][k] == ps[k + 1];
    }
  }

  /** The header loop consumes the first of the header lines and adds its record. */
  lemma HeaderOfFirstLine(ps: seq<HeaderPieces>, body: string, colv: seq<ColumnInfo>)
    requires ps != [] && IsHeaderLine(ps[0]) && DigitsValue(ps[0].digits) == |colv| + 1 <= ULongMax
    ensures HeaderFrom(HeaderText(ps, body), colv) == HeaderFrom(HeaderText(ps[1..], body), colv + Columns(ps[..1]))
  {
    var p, tail := ps[0], HeaderText(ps[1..], body);
    var info := InfoLine(DigitsValue(p.digits), p.afterColon.description, p.afterColon.units.unit);
    assert HeaderText(ps, body) == Assemble(p) + "\n" + tail;
    NextInfoOfHeaderLine(p, tail);
    HeaderFromStep(HeaderText(ps, body), colv, info, tail);
    assert Columns(ps[..1]) == [FreshColumn(info.description, info.unit)];
  }

  lemma ColumnsSplit(ps: seq<HeaderPieces>, colv: seq<ColumnInfo>)
    requires ps != []
    ensures colv + Columns(ps) == (colv + Columns(ps[..1])) + Columns(ps[1..])
  {
    assert Columns(ps) == Columns(ps[..1]) + Columns(ps[1..]);
    AppendAssociates(colv, Columns(ps[..1]), Columns(ps[1..]));
  }

  /** Structured lines numbered 1, 2, 3, ... make up the header, which ends where the body starts
      (every number within the range of an unsigned long). */
  lemma {:induction false} HeaderOfLines(ps: seq<HeaderPieces>, body: string, colv: seq<ColumnInfo>)
    requires NumberedFrom(ps, |colv| + 1) && |colv| + |ps| <= ULongMax
    requires body == [] || (body[0] != '#' && !IsStreamSpace(body[0]))
    ensures HeaderFrom(HeaderText(ps, body), colv) == Ok((colv + Columns(ps), body))
    decreases |ps|
  {
    if ps == [] {
      assert colv + [] == colv;
    } else {
      var next := colv + Columns(ps[..1]);
      HeaderOfFirstLine(ps, body, colv);
      NumberedTail(ps, |colv| + 1);
      HeaderOfLines(ps[1..], body, next);
      ColumnsSplit(ps, colv);
    }
  }

  /** A structured line out of sequence rejects the header, naming the column number expected. */
  lemma HeaderRejectsIndex(p: HeaderPieces, rest: string, colv: seq<ColumnInfo>)
    requires IsHeaderLine(p) && DigitsValue(p.digits) != |colv| + 1 && DigitsValue(p.digits) <= ULongMax
    ensures HeaderFrom(Assemble(p) + "\n" + rest, colv) == Fatal(IncorrectColumnIndex(|colv| + 1))
  {
    NextInfoOfHeaderLine(p, rest);
  }

  /** A structured line whose column number does not fit an unsigned long stops the header read with
      the out-of-range exception of std::stoul, whatever the records read so far. */
  lemma HeaderRejectsOutOfRange(p: HeaderPieces, rest: string, colv: seq<ColumnInfo>)
    requires IsHeaderLine(p) && DigitsValue(p.digits) > ULongMax
    ensures HeaderFrom(Assemble(p) + "\n" + rest, colv) == Fatal(ColumnNumberOutOfRange)
  {
    NextInfoOfHeaderLine(p, rest);
  }

  //============= Specific quantities =============

  /** The per-wavelength and per-frequency quantities, with the wavelength exponents converting them
      to per-wavelength flavour (TextInFile.cpp:82-86). */
  const SpecificQuantities: seq<string> := [
    "wavelengthmonluminosity", "wavelengthfluxdensity", "wavelengthsurfacebrightness",
    "neutralmonluminosity", "neutralfluxdensity", "neutralsurfacebrightness",
    "frequencymonluminosity", "frequencyfluxdensity", "frequencysurfacebrightness"]
  const SpecificExponents: seq<int> := [0, 0, 0, -1, -1, -1, -2, -2, -2]

  /** The error value of the two lookups below. */
  const NotFound: int := 99

  /** Quantity `p` of the list supports `unit` in the unit system. */
  predicate Supports(units: UnitSystem, unit: string, p: nat)
    requires p < |SpecificQuantities|
  {
    units.has(SpecificQuantities[p], unit)
  }

  /** The position of the first quantity at or after `q` that supports `unit`, or the length of the
      list when there is none. */
  function FirstSupporting(units: UnitSystem, unit: string, q: nat): (p: nat)
    requires q <= |SpecificQuantities|
    ensures q <= p <= |SpecificQuantities|
    ensures p < |SpecificQuantities| ==> Supports(units, unit, p)
    ensures forall p' :: q <= p' < p ==> !Supports(units, unit, p')
    decreases |SpecificQuantities| - q
  {
    if q == |SpecificQuantities| then q
    else if Supports(units, unit, q) then q
    else FirstSupporting(units, unit, q + 1)
  }

  /** The exponent of the first specific quantity, in list order, that supports `unit`, or 99. */
  function WaveExponent(units: UnitSystem, unit: string): (e: int)
    ensures e == NotFound || e == 0 || e == -1 || e == -2
    ensures e == NotFound <==> forall p :: 0 <= p < |SpecificQuantities| ==> !Supports(units, unit, p)
  {
    var p := FirstSupporting(units, unit, 0);
    if p == |SpecificQuantities| then NotFound else SpecificExponents[p]
  }

  /** The family of list position `p`: wavelength (0), neutral (-1) or frequency (-2). */
  function Family(p: nat): int
  {
    if p < 3 then 0 else if p < 6 then -1 else -2
  }

  lemma ExponentIsFamily(p: nat)
    requires p < |SpecificQuantities|
    ensures SpecificExponents[p] == Family(p)
  {
  }

  /** The lookup fails exactly when no quantity supports the unit; otherwise it yields the exponent
      of the first quantity that does. */
  lemma WaveExponentFirst(units: UnitSystem, unit: string)
    ensures var e := WaveExponent(units, unit);
            e == NotFound <==> forall p :: 0 <= p < |SpecificQuantities| ==> !Supports(units, unit, p)
    ensures var e := WaveExponent(units, unit);
            e != NotFound ==>
              exists p :: 0 <= p < |SpecificQuantities| && Supports(units, unit, p) && e == SpecificExponents[p]
                          && forall p' :: 0 <= p' < p ==> !Supports(units, unit, p')
  {
    var p := FirstSupporting(units, unit, 0);
    if p < |SpecificQuantities| {
      ExponentIsFamily(p);
    }
  }

  /** The exponent is 0 for the wavelength family, -1 for the neutral family and -2 for the
      frequency family: the family of the first quantity that supports the unit. */
  lemma WaveExponentFamilies(units: UnitSystem, unit: string)
    ensures var e := WaveExponent(units, unit);
            e == NotFound || e == 0 || e == -1 || e == -2
    ensures WaveExponent(units, unit) == 0 <==>
              exists p :: 0 <= p < 3 && Supports(units, unit, p)
    ensures WaveExponent(units, unit) == -1 <==>
              (forall p :: 0 <= p < 3 ==> !Supports(units, unit, p))
              && exists p :: 3 <= p < 6 && Supports(units, unit, p)
    ensures WaveExponent(units, unit) == -2 <==>
              (forall p :: 0 <= p < 6 ==> !Supports(units, unit, p))
              && exists p :: 6 <= p < 9 && Supports(units, unit, p)
  {
    var p := FirstSupporting(units, unit, 0);
    if p < |SpecificQuantities| {
      ExponentIsFamily(p);
    }
  }

  method WaveExponentForSpecificQuantity(units: UnitSystem, unit: string) returns (e: int)
    ensures e == WaveExponent(units, unit)
  {
    var q := 0;
    while q != |SpecificQuantities|
      invariant 0 <= q <= |SpecificQuantities|
      invariant FirstSupporting(units, unit, q) == FirstSupporting(units, unit, 0)
    {
      if units.has(SpecificQuantities[q], unit) {
        return SpecificExponents[q];
      }
      q := q + 1;
    }
    return NotFound;
  }

  function WaveIndexFrom(colv: seq<ColumnInfo>, k: nat): (w: nat)
    requires k <= |colv|
    ensures w == NotFound || k <= w < |colv|
    ensures w != NotFound ==>
              colv[w].description == "wavelength" && forall j :: k <= j < w ==> colv[j].description != "wavelength"
    ensures (forall j :: k <= j < |colv| ==> colv[j].description != "wavelength") ==> w == NotFound
    decreases |colv| - k
  {
    if k == |colv| then NotFound
    else if colv[k].description == "wavelength" then k
    else WaveIndexFrom(colv, k + 1)
  }

  /** The index of the first record described as "wavelength", or 99 when there is none. */
  function WaveIndex(colv: seq<ColumnInfo>): (w: nat)
    ensures w == NotFound || w < |colv|
    ensures w != NotFound ==>
              colv[w].description == "wavelength" && forall j :: 0 <= j < w ==> colv[j].description != "wavelength"
    ensures (forall j :: 0 <= j < |colv| ==> colv[j].description != "wavelength") ==> w == NotFound
  {
    WaveIndexFrom(colv, 0)
  }

  /** The error value is also a valid index: a first wavelength column at index 99 reads as absent. */
  lemma WaveIndexSentinelCollision(colv: seq<ColumnInfo>)
    requires |colv| > 99 && colv[99].description == "wavelength"
    requires forall j :: 0 <= j < 99 ==> colv[j].description != "wavelength"
    ensures WaveIndex(colv) == NotFound
  {
  }

  method WaveIndexForSpecificQuantity(colv: seq<ColumnInfo>) returns (w: nat)
    ensures w == WaveIndex(colv)
  {
    var index := 0;
    while index < |colv|
      invariant 0 <= index <= |colv|
      invariant WaveIndexFrom(colv, index) == WaveIndex(colv)
    {
      if colv[index].description == "wavelength" {
        return index;
      }
      index := index + 1;
    }
    return NotFound;
  }

  //============= Declaring program columns =============

  /** Every record that converts by a wavelength power points at an existing record. */
  predicate WaveIndicesInRange(colv: seq<ColumnInfo>) {
    forall k :: 0 <= k < |colv| && colv[k].waveExponent != 0 ==> colv[k].waveIndex < |colv|
  }

  /** The relation between the records, the number of program columns declared so far and the
      number of header columns: without a header there is one record per declared column, with a
      header one record per header column. */
  predicate Bookkeeping(colv: seq<ColumnInfo>, programColIndex: nat, numFileCols: nat) {
    && programColIndex <= |colv|
    && (numFileCols == 0 ==> programColIndex == |colv|)
    && (numFileCols != 0 ==> |colv| == numFileCols)
    && WaveIndicesInRange(colv)
  }

  /** The records and the program column index after addColumn, with its outcome. */
  datatype Declared = Declared(colv: seq<ColumnInfo>, programColIndex: nat, outcome: Outcome<Error>)

  /** The unit a program column starts from: the default unit when the file has no header,
      otherwise the unit given for that column by the header. */
  function IncomingUnit(colv: seq<ColumnInfo>, pci: nat, numFileCols: nat, defaultUnit: string): string
    requires numFileCols != 0 ==> pci < |colv|
  {
    if numFileCols == 0 then defaultUnit else colv[pci].unit
  }

  /** addColumn (TextInFile.cpp:170-222) on the records `colv`, `pci` columns having been declared. */
  function Declare(colv: seq<ColumnInfo>, pci: nat, numFileCols: nat, description: string,
                   quantity: string, defaultUnit: string, units: UnitSystem): (r: Declared)
    requires Bookkeeping(colv, pci, numFileCols)
    // more program columns than header columns
    ensures r.outcome == Fail(NoColumnInfo(pci + 1)) <==> numFileCols != 0 && pci >= numFileCols
    ensures numFileCols != 0 && pci >= numFileCols ==> r.colv == colv && r.programColIndex == pci
    // otherwise exactly one more program column is declared, and only its record changes
    ensures !(numFileCols != 0 && pci >= numFileCols) ==>
              && r.programColIndex == pci + 1
              && |r.colv| == (if numFileCols == 0 then |colv| + 1 else |colv|)
              && (forall k :: 0 <= k < |colv| && k != pci ==> r.colv[k] == colv[k])
              && r.colv[pci].title == (if numFileCols == 0 then "" else colv[pci].title)
              && r.colv[pci].description == description && r.colv[pci].quantity == quantity
  {
    if numFileCols != 0 && pci + 1 > numFileCols then Declared(colv, pci, Fail(NoColumnInfo(pci + 1)))
    else
      var records := if numFileCols == 0 then colv + [FreshColumn("", defaultUnit)] else colv;
      var (col, outcome) := Configure(records, pci, description, quantity, units);
      Declared(records[pci := col], pci + 1, outcome)
  }

  /** The record of program column `pci` after addColumn (TextInFile.cpp:188-220), with the outcome:
      the description and quantity are stored, then the unit is checked against the quantity. */
  function Configure(records: seq<ColumnInfo>, pci: nat, description: string, quantity: string,
                     units: UnitSystem): (r: (ColumnInfo, Outcome<Error>))
    requires pci < |records|
    ensures r.0.title == records[pci].title && r.0.description == description && r.0.quantity == quantity
    // a failure names the column and is one of the four unit errors
    ensures r.1.Fail? ==>
              r.1.error in {InvalidDimensionlessUnits(pci + 1), InvalidSpecificUnits(pci + 1),
                            NoWavelengthColumn(pci + 1), InvalidUnits(pci + 1)}
    // an accepted per-frequency or neutral column points at a "wavelength" record
    ensures quantity == "specific" && r.1.Pass? && r.0.waveExponent != 0 ==>
              r.0.waveIndex < |records| && records[pci := r.0][r.0.waveIndex].description == "wavelength"
  {
    var n := pci + 1;
    var col := records[pci].(description := description, quantity := quantity);
    if quantity == "" then
      if col.unit != "" && col.unit != "1" then (col, Fail(InvalidDimensionlessUnits(n)))
      else (col.(unit := "1"), Pass)
    else if quantity == "specific" then
      var e := WaveExponent(units, col.unit);
      var c := col.(waveExponent := e);
      if e == NotFound then (c, Fail(InvalidSpecificUnits(n)))
      else if e == 0 then (c, Pass)
      else
        var w := WaveIndex(records[pci := c]);
        (c.(waveIndex := w), if w == NotFound then Fail(NoWavelengthColumn(n)) else Pass)
    else if !units.has(quantity, col.unit) then (col, Fail(InvalidUnits(n)))
    else (col.(convFactor := units.factor(quantity, col.unit)), Pass)
  }

  /** Declare unfolded: the record of the declared column is replaced by its configured record. */
  lemma DeclareConfigures(colv: seq<ColumnInfo>, pci: nat, numFileCols: nat, description: string,
                          quantity: string, defaultUnit: string, units: UnitSystem, records: seq<ColumnInfo>)
    requires Bookkeeping(colv, pci, numFileCols) && !(numFileCols != 0 && pci >= numFileCols)
    requires records == if numFileCols == 0 then colv + [FreshColumn("", defaultUnit)] else colv
    ensures var c := Configure(records, pci, description, quantity, units);
            Declare(colv, pci, numFileCols, description, quantity, defaultUnit, units)
            == Declared(records[pci := c.0], pci + 1, c.1)
  {
  }

  /** A successful declaration keeps the bookkeeping between records and declared columns. */
  lemma DeclareKeepsBookkeeping(colv: seq<ColumnInfo>, pci: nat, numFileCols: nat, description: string,
                                quantity: string, defaultUnit: string, units: UnitSystem)
    requires Bookkeeping(colv, pci, numFileCols)
    ensures var r := Declare(colv, pci, numFileCols, description, quantity, defaultUnit, units);
            r.outcome.Pass? ==> Bookkeeping(r.colv, r.programColIndex, numFileCols)
  {
  }

  /** A dimensionless column accepts only the empty unit and "1", and then stores "1". */
  lemma DeclareDimensionless(colv: seq<ColumnInfo>, pci: nat, numFileCols: nat, description: string,
                             defaultUnit: string, units: UnitSystem)
    requires Bookkeeping(colv, pci, numFileCols) && !(numFileCols != 0 && pci >= numFileCols)
    ensures var r := Declare(colv, pci, numFileCols, description, "", defaultUnit, units);
            var u := IncomingUnit(colv, pci, numFileCols, defaultUnit);
            && (r.outcome.Pass? <==> u == "" || u == "1")
            && (r.outcome.Pass? ==> r.colv[pci].unit == "1")
            && (r.outcome.Fail? ==> r.outcome.error == InvalidDimensionlessUnits(pci + 1))
  {
  }

  /** A per-wavelength or per-frequency column is accepted when its unit belongs to one of the
      specific families, and then records the exponent of that family. */
  lemma DeclareSpecific(colv: seq<ColumnInfo>, pci: nat, numFileCols: nat, description: string,
                        defaultUnit: string, units: UnitSystem)
    requires Bookkeeping(colv, pci, numFileCols) && !(numFileCols != 0 && pci >= numFileCols)
    ensures var r := Declare(colv, pci, numFileCols, description, "specific", defaultUnit, units);
            var u := IncomingUnit(colv, pci, numFileCols, defaultUnit);
            var e := WaveExponent(units, u);
            && r.colv[pci].unit == u
            && r.colv[pci].waveExponent == e
            && (e == NotFound <==> r.outcome == Fail(InvalidSpecificUnits(pci + 1)))
            // a per-frequency or neutral unit also needs a column described as "wavelength"
            && (r.outcome == Fail(NoWavelengthColumn(pci + 1)) <==>
                  e != NotFound && e != 0 && WaveIndex(r.colv) == NotFound)
            && (r.outcome.Pass? <==> e != NotFound && (e == 0 || WaveIndex(r.colv) != NotFound))
            && (r.outcome.Pass? ==> r.colv[pci].waveExponent in {0, -1, -2})
  {
    var records := if numFileCols == 0 then colv + [FreshColumn("", defaultUnit)] else colv;
    var u := IncomingUnit(colv, pci, numFileCols, defaultUnit);
    assert records[pci].unit == u;
    var col := records[pci].(description := description, quantity := "specific");
    var e := WaveExponent(units, u);
    var c := col.(waveExponent := e);
    var r := Declare(colv, pci, numFileCols, description, "specific", defaultUnit, units);
    if e != NotFound && e != 0 {
      var w := WaveIndex(records[pci := c]);
      assert r.colv == records[pci := c.(waveIndex := w)];
      WaveIndexOfSameDescriptions(records[pci := c], r.colv);
    }
  }

  /** An accepted per-frequency or neutral column records the first column described as
      "wavelength", whose values convert it. */
  lemma DeclareSpecificWavelength(colv: seq<ColumnInfo>, pci: nat, numFileCols: nat, description: string,
                                  defaultUnit: string, units: UnitSystem)
    requires Bookkeeping(colv, pci, numFileCols) && !(numFileCols != 0 && pci >= numFileCols)
    ensures var r := Declare(colv, pci, numFileCols, description, "specific", defaultUnit, units);
            r.outcome.Pass? && r.colv[pci].waveExponent != 0 ==>
              && r.colv[pci].waveIndex < |r.colv|
              && r.colv[r.colv[pci].waveIndex].description == "wavelength"
              && forall j :: 0 <= j < r.colv[pci].waveIndex ==> r.colv[j].description != "wavelength"
  {
    var records := if numFileCols == 0 then colv + [FreshColumn("", defaultUnit)] else colv;
    var col := records[pci].(description := description, quantity := "specific");
    var e := WaveExponent(units, col.unit);
    var c := col.(waveExponent := e);
    var r := Declare(colv, pci, numFileCols, description, "specific", defaultUnit, units);
    if e != NotFound && e != 0 {
      var w := WaveIndex(records[pci := c]);
      assert r.colv == records[pci := c.(waveIndex := w)];
      if w != NotFound {
        WaveIndexOfSameDescriptions(records[pci := c], r.colv);
      }
    }
  }

  /** The wavelength column depends on the descriptions only. */
  lemma WaveIndexOfSameDescriptions(a: seq<ColumnInfo>, b: seq<ColumnInfo>)
    requires |a| == |b| && forall k :: 0 <= k < |a| ==> a[k].description == b[k].description
    ensures WaveIndex(a) == WaveIndex(b)
  {
    WaveIndexFromSameDescriptions(a, b, 0);
  }

  lemma {:induction false} WaveIndexFromSameDescriptions(a: seq<ColumnInfo>, b: seq<ColumnInfo>, start: nat)
    requires |a| == |b| && start <= |a| && forall k :: 0 <= k < |a| ==> a[k].description == b[k].description
    ensures WaveIndexFrom(a, start) == WaveIndexFrom(b, start)
    decreases |a| - start
  {
    if start < |a| {
      WaveIndexFromSameDescriptions(a, b, start + 1);
    }
  }

  /** Any other quantity is accepted when the unit system knows its unit, and then records the
      conversion factor. */
  lemma DeclareRegular(colv: seq<ColumnInfo>, pci: nat, numFileCols: nat, description: string,
                       quantity: string, defaultUnit: string, units: UnitSystem)
    requires Bookkeeping(colv, pci, numFileCols) && !(numFileCols != 0 && pci >= numFileCols)
    requires quantity != "" && quantity != "specific"
    ensures var r := Declare(colv, pci, numFileCols, description, quantity, defaultUnit, units);
            var u := IncomingUnit(colv, pci, numFileCols, defaultUnit);
            && r.colv[pci].unit == u
            && (r.outcome.Pass? <==> units.has(quantity, u))
            && (r.outcome.Pass? ==> r.colv[pci].convFactor == units.factor(quantity, u))
            && (r.outcome.Fail? ==> r.outcome.error == InvalidUnits(pci + 1))
  {
  }

  //============= Data rows =============

  /** The next line of `s` that readRow converts, with the text after it, or None at the end of the
      input: empty lines, lines of spaces and tabs, and comment lines are skipped (TextInFile.cpp:233-237). */
  function NextDataLine(s: string): (r: Option<(string, string)>)
    ensures r.Some? ==> !IsSkippedLine(r.value.0) && '\n' !in r.value.0 && |r.value.1| < |s|
    decreases |s|
  {
    if s == [] then None
    else
      var (line, rest) := GetLine(s);
      if IsSkippedLine(line) then NextDataLine(rest) else Some((line, rest))
  }

  /** The lines of a text, each ended by a line feed. */
  function LinesText(lines: seq<string>): string {
    if lines == [] then [] else lines[0] + "\n" + LinesText(lines[1..])
  }

  /** The lines that readRow converts. */
  function DataLines(lines: seq<string>): (d: seq<string>)
    ensures forall k :: 0 <= k < |d| ==> !IsSkippedLine(d[k])
  {
    if lines == [] then []
    else if IsSkippedLine(lines[0]) then DataLines(lines[1..])
    else [lines[0]] + DataLines(lines[1..])
  }

  /** The lines that successive calls of readRow convert, in order. */
  function DataLinesOf(s: string): seq<string>
    decreases |s|
  {
    match NextDataLine(s)
    case None => []
    case Some((line, rest)) => [line] + DataLinesOf(rest)
  }

  /** The lines converted from a text are exactly its lines that are not skipped, in order. */
  lemma {:induction false} DataLinesOfText(lines: seq<string>)
    requires forall k :: 0 <= k < |lines| ==> '\n' !in lines[k]
    ensures DataLinesOf(LinesText(lines)) == DataLines(lines)
  {
    if lines != [] {
      var s := LinesText(lines);
      assert s == lines[0] + "\n" + LinesText(lines[1..]);
      GetLineOf(lines[0], LinesText(lines[1..]));
      DataLinesOfText(lines[1..]);
    }
  }

  /** A line holding only a carriage return (an empty line of a text with CR LF line ends) is not
      skipped, and reading a value from it fails. */
  lemma CarriageReturnLineIsData(ft: FloatText, rest: string, count: nat)
    requires count > 0
    ensures NextDataLine("\r\n" + rest) == Some(("\r", rest))
    ensures ScanFrom(ft, "\r", false, count) == Fatal(NotAFloat)
  {
    GetLineOf("\r", rest);
    assert "\r" + "\n" + rest == "\r\n" + rest;
    assert Span("\r", IsBlank) == 0;
    assert Span("\r", IsSpace) == 1;
  }

  /** The extractions `linestream >> value` of one data line (TextInFile.cpp:244-253): `count`
      values are read from `text`; reading stops with MissingValue when the previous value ended the
      line, and with NotAFloat when no number can be read. Text after the last value is ignored. */
  function ScanFrom(ft: FloatText, text: string, eof: bool, count: nat): (r: Result<seq<real>, Error>)
    ensures r.Ok? ==> |r.value| == count
    decreases count
  {
    if count == 0 then Ok([])
    else if eof then Fatal(MissingValue)
    else
      match ExtractDouble(ft, text)
      case None => Fatal(NotAFloat)
      case Some((x, after)) => Prepend([x], ScanFrom(ft, after, after == [], count - 1))
  }

  /** ScanFrom unfolded once: a value read from the text is followed by the values of the rest. */
  lemma ScanStep(ft: FloatText, text: string, count: nat, x: real, after: string)
    requires count > 0 && ExtractDouble(ft, text) == Some((x, after))
    ensures ScanFrom(ft, text, false, count) == Prepend([x], ScanFrom(ft, after, after == [], count - 1))
  {
  }

  function Zeros(n: nat): (z: seq<real>)
    ensures |z| == n && forall k :: 0 <= k < n ==> z[k] == 0.0
  {
    seq(n, _ => 0.0)
  }

  /** The factor converting a value of column `col` to internal units, given the row array as it
      is when that value is stored (TextInFile.cpp:255-256). */
  function Factor(ft: FloatText, col: ColumnInfo, values: seq<real>): real
    requires col.waveExponent != 0 ==> col.waveIndex < |values|
  {
    if col.waveExponent != 0 then ft.power(values[col.waveIndex], col.waveExponent) else col.convFactor
  }

  /** The row array after the values `xs` were converted and stored one by one, in column order,
      into the array `start`. */
  function Converted(ft: FloatText, colv: seq<ColumnInfo>, xs: seq<real>, start: seq<real>): (v: seq<real>)
    requires |xs| <= |colv| == |start| && WaveIndicesInRange(colv)
    ensures |v| == |start| && forall j :: |xs| <= j < |v| ==> v[j] == start[j]
    decreases |xs|
  {
    if xs == [] then start
    else
      var k := |xs| - 1;
      var prior := Converted(ft, colv, xs[..k], start);
      prior[k := ft.product(xs[k], Factor(ft, colv[k], prior))]
  }

  /** Each stored value is its read value times the factor for the row as it stood when that value
      was stored: later columns do not touch it again. */
  lemma {:induction false} ConvertedAt(ft: FloatText, colv: seq<ColumnInfo>, xs: seq<real>, start: seq<real>, k: nat)
    requires |xs| <= |colv| == |start| && WaveIndicesInRange(colv) && k < |xs|
    ensures Converted(ft, colv, xs, start)[k] == ft.product(xs[k], Factor(ft, colv[k], Converted(ft, colv, xs[..k], start)))
    decreases |xs|
  {
    var m := |xs| - 1;
    if k < m {
      ConvertedAt(ft, colv, xs[..m], start, k);
      assert xs[..m][..k] == xs[..k] && xs[..m][k] == xs[k];
    }
  }

  /** The values stored from a prefix of the row stay as they are. */
  lemma {:induction false} ConvertedPrefix(ft: FloatText, colv: seq<ColumnInfo>, xs: seq<real>, start: seq<real>,
                                           m: nat, k: nat)
    requires |xs| <= |colv| == |start| && WaveIndicesInRange(colv) && k < m <= |xs|
    ensures Converted(ft, colv, xs[..m], start)[k] == Converted(ft, colv, xs, start)[k]
    decreases |xs|
  {
    if m < |xs| {
      var n := |xs| - 1;
      ConvertedPrefix(ft, colv, xs[..n], start, m, k);
      assert xs[..n][..m] == xs[..m];
    } else {
      assert xs[..m] == xs;
    }
  }

  /** Converting one more value stores it at the next position. */
  lemma ConvertedSnoc(ft: FloatText, colv: seq<ColumnInfo>, xs: seq<real>, x: real, start: seq<real>)
    requires |xs| < |colv| == |start| && WaveIndicesInRange(colv)
    ensures var prior := Converted(ft, colv, xs, start);
            Converted(ft, colv, xs + [x], start) == prior[|xs| := ft.product(x, Factor(ft, colv[|xs|], prior))]
  {
    assert (xs + [x])[..|xs|] == xs;
  }

  /** A column without wavelength exponent holds its value times the conversion factor. */
  lemma ConvertedPlain(ft: FloatText, colv: seq<ColumnInfo>, xs: seq<real>, start: seq<real>, k: nat)
    requires |xs| <= |colv| == |start| && WaveIndicesInRange(colv) && k < |xs|
    requires colv[k].waveExponent == 0
    ensures Converted(ft, colv, xs, start)[k] == ft.product(xs[k], colv[k].convFactor)
  {
    ConvertedAt(ft, colv, xs, start, k);
  }

  /** A specific column converts with the wavelength value of the same row when that column comes
      earlier, already in internal units. */
  lemma ConvertedSpecific(ft: FloatText, colv: seq<ColumnInfo>, xs: seq<real>, start: seq<real>, k: nat)
    requires |xs| <= |colv| == |start| && WaveIndicesInRange(colv) && k < |xs|
    requires colv[k].waveExponent != 0 && colv[k].waveIndex < k
    ensures var v := Converted(ft, colv, xs, start);
            v[k] == ft.product(xs[k], ft.power(v[colv[k].waveIndex], colv[k].waveExponent))
  {
    ConvertedPrefix(ft, colv, xs, start, k, colv[k].waveIndex);
    ConvertedAt(ft, colv, xs, start, k);
  }

  /** The rows that readAllRows returns for the text `s` (TextInFile.cpp:313-326): every data line is
      converted into a fresh array of zeros. */
  function AllRows(ft: FloatText, colv: seq<ColumnInfo>, s: string): (r: Result<seq<seq<real>>, Error>)
    requires |colv| > 0 && WaveIndicesInRange(colv)
    ensures r.Ok? ==> forall k :: 0 <= k < |r.value| ==> |r.value[k]| == |colv|
    decreases |s|
  {
    match NextDataLine(s)
    case None => Ok([])
    case Some((line, rest)) =>
      match ScanFrom(ft, line, false, |colv|)
      case Fatal(e) => Fatal(e)
      case Ok(xs) => Prepend([Converted(ft, colv, xs, Zeros(|colv|))], AllRows(ft, colv, rest))
  }

  /** The columns of a table of rows. */
  predicate IsTranspose(columns: seq<seq<real>>, rows: seq<seq<real>>, ncols: nat)
    requires forall r :: 0 <= r < |rows| ==> |rows[r]| == ncols
  {
    && |columns| == ncols
    && (forall c :: 0 <= c < ncols ==> |columns[c]| == |rows|)
    && forall c, r :: 0 <= c < ncols && 0 <= r < |rows| ==> columns[c][r] == rows[r][c]
  }

  /** The transposition loop of readAllColumns (TextInFile.cpp:337-343). */
  method Transpose(rows: seq<seq<real>>, ncols: nat) returns (columns: seq<seq<real>>)
    requires forall r :: 0 <= r < |rows| ==> |rows[r]| == ncols
    ensures IsTranspose(columns, rows, ncols)
  {
    var nrows := |rows|;
    columns := seq(ncols, _ => Zeros(nrows));
    var c := 0;
    while c != ncols
      invariant 0 <= c <= ncols && |columns| == ncols
      invariant forall j :: 0 <= j < ncols ==> |columns[j]| == nrows
      invariant forall j, r :: 0 <= j < c && 0 <= r < nrows ==> columns[j][r] == rows[r][j]
    {
      var r := 0;
      while r != nrows
        invariant 0 <= r <= nrows && |columns| == ncols
        invariant forall j :: 0 <= j < ncols ==> |columns[j]| == nrows
        invariant forall j, i :: 0 <= j < c && 0 <= i < nrows ==> columns[j][i] == rows[i][j]
        invariant forall i :: 0 <= i < r ==> columns[c][i] == rows[i][c]
      {
        columns := columns[c := columns[c][r := rows[r][c]]];
        r := r + 1;
      }
      c := c + 1;
    }
  }

  //============= Non-leaf lines =============

  /** readNonLeaf (TextInFile.cpp:268-309) on the text `s`: comment lines and blanks are skipped; a
      line starting with `!` yields its three subdivision counts; any other character ends the
      search without being consumed. */
  function NonLeaf(s: string): (r: (Result<Option<Subdivision>, Error>, string))
    ensures |r.1| <= |s|
    ensures r.0 == Ok(None) ==> r.1 == s[|s| - |r.1|..]
                                && (r.1 == [] || (r.1[0] != '#' && r.1[0] != '!' && !IsStreamSpace(r.1[0])))
    decreases |s|
  {
    if s == [] then (Ok(None), s)
    else if s[0] == '#' then
      var rest := GetLine(s).1;
      assert rest == s[|s| - |rest|..] by {
        if |GetLine(s).0| < |s| {
          assert s == (GetLine(s).0 + "\n") + rest;
        }
      }
      NonLeaf(rest)
    else if s[0] == '!' then
      var (line, rest) := GetLine(s[1..]);
      match ExtractSubdivision(line)
      case None => (Fatal(BadNonLeaf), rest)
      case Some(sub) => (Ok(Some(sub)), rest)
    else if IsStreamSpace(s[0]) then NonLeaf(s[1..])
    else (Ok(None), s)
  }

  lemma {:induction false} SpacedTextHasNoLineFeed(vs: seq<int>, tail: string)
    requires '\n' !in tail
    ensures '\n' !in SpacedText(vs, tail)
  {
    if vs != [] {
      SpacedTextHasNoLineFeed(vs[1..], tail);
      var d := NatText(if vs[0] < 0 then -vs[0] else vs[0]);
      assert forall k :: 0 <= k < |d| ==> d[k] != '\n';
    }
  }

  /** A non-leaf line written as `!` followed by three counts is read back, and reading continues
      after its line feed. */
  lemma NonLeafOfLine(nx: int, ny: int, nz: int, tail: string, rest: string)
    requires IntMin <= nx <= IntMax && IntMin <= ny <= IntMax && IntMin <= nz <= IntMax
    requires '\n' !in tail && (tail == [] || !IsDigit(tail[0]))
    ensures NonLeaf("!" + SpacedText([nx, ny, nz], tail) + "\n" + rest) == (Ok(Some(Subdivision(nx, ny, nz))), rest)
  {
    var line := SpacedText([nx, ny, nz], tail);
    var s := "!" + line + "\n" + rest;
    SpacedTextHasNoLineFeed([nx, ny, nz], tail);
    assert s[1..] == line + "\n" + rest;
    GetLineOf(line, rest);
    ExtractSubdivisionText(nx, ny, nz, tail);
    NonLeafAtBang(s, line, rest);
  }

  /** One unfolding of NonLeaf at a `!` line. */
  lemma NonLeafAtBang(s: string, line: string, rest: string)
    requires s != [] && s[0] == '!' && GetLine(s[1..]) == (line, rest)
    ensures NonLeaf(s) == match ExtractSubdivision(line)
                          case None => (Fatal(BadNonLeaf), rest)
                          case Some(sub) => (Ok(Some(sub)), rest)
  {
  }

  /** A comment line before a non-leaf line is consumed and skipped. */
  lemma NonLeafSkipsComment(line: string, rest: string)
    requires line != [] && line[0] == '#' && '\n' !in line
    ensures NonLeaf(line + "\n" + rest) == NonLeaf(rest)
  {
    var s := line + "\n" + rest;
    assert s != [] && s[0] == '#' && !IsStreamSpace(s[0]);
    assert GetLine(s) == (line, rest) by {
      GetLineOf(line, rest);
    }
  }

  //============= The reader object =============

  /** The part of addColumn that sets up the record of program column `index` in `records`
      (TextInFile.cpp:188-220). */
  method ConfigureColumn(records: seq<ColumnInfo>, index: nat, description: string, quantity: string,
                         units: UnitSystem) returns (col: ColumnInfo, r: Outcome<Error>)
    requires index < |records|
    ensures (col, r) == Configure(records, index, description, quantity, units)
  {
    var n := index + 1;
    col := records[index].(description := description, quantity := quantity);
    if quantity == "" {
      if col.unit != "" && col.unit != "1" {
        return col, Fail(InvalidDimensionlessUnits(n));
      }
      col := col.(unit := "1");
    } else if quantity == "specific" {
      var e := WaveExponentForSpecificQuantity(units, col.unit);
      col := col.(waveExponent := e);
      if e == NotFound {
        return col, Fail(InvalidSpecificUnits(n));
      }
      if e != 0 {
        var w := WaveIndexForSpecificQuantity(records[index := col]);
        col := col.(waveIndex := w);
        if w == NotFound {
          return col, Fail(NoWavelengthColumn(n));
        }
      }
    } else {
      if !units.has(quantity, col.unit) {
        return col, Fail(InvalidUnits(n));
      }
      col := col.(convFactor := units.factor(quantity, col.unit));
    }
    return col, Pass;
  }

  /** The extraction loop of readRow (TextInFile.cpp:244-257): the values of `line` are read one
      by one, converted to internal units and stored into `row`. */
  method ReadValues(ft: FloatText, colv: seq<ColumnInfo>, line: string, row: array<real>)
    returns (r: Result<bool, Error>)
    requires WaveIndicesInRange(colv) && row.Length == |colv|
    modifies row
    ensures match ScanFrom(ft, line, false, |colv|)
            case Fatal(e) => r == Fatal(e)
            case Ok(xs) => r == Ok(true) && row[..] == Converted(ft, colv, xs, old(row[..]))
  {
    var ncols := |colv|;
    ghost var start := row[..];
    var text := line;
    var eof := false;
    ghost var got: seq<real> := [];
    ghost var target := ScanFrom(ft, line, false, ncols);
    PrependNothing(target);
    // the number of values still to be read
    ghost var left: nat := ncols;
    var i := 0;
    while i < ncols
      invariant 0 <= i <= ncols && |got| == i && left == ncols - i
      invariant row[..] == Converted(ft, colv, got, start)
      invariant Prepend(got, ScanFrom(ft, text, eof, left)) == target
    {
      if eof {
        return Fatal(MissingValue);
      }
      var extracted := ExtractDouble(ft, text);
      if extracted.None? {
        return Fatal(NotAFloat);
      }
      var (value, after) := extracted.value;
      row[i] := ft.product(value, Factor(ft, colv[i], row[..]));
      ConvertedSnoc(ft, colv, got, value, start);
      ScanStep(ft, text, left, value, after);
      PrependTwice(got, [value], ScanFrom(ft, after, after == [], left - 1));
      got := got + [value];
      text := after;
      eof := after == [];
      left := left - 1;
      i := i + 1;
    }
    assert got + [] == got;
    return Ok(true);
  }

  /** addColumn (TextInFile.cpp:170-222) on the records `colv`, `pci` program columns having been
      declared: the new records, the new number of declared columns and the outcome. */
  method DeclareColumn(colv: seq<ColumnInfo>, pci: nat, numFileCols: nat, description: string,
                       quantity: string, defaultUnit: string, units: UnitSystem)
    returns (records: seq<ColumnInfo>, index: nat, r: Outcome<Error>)
    requires Bookkeeping(colv, pci, numFileCols)
    ensures Declared(records, index, r) == Declare(colv, pci, numFileCols, description, quantity, defaultUnit, units)
  {
    records, index := colv, pci;
    if numFileCols == 0 {
      records := records + [FreshColumn("", defaultUnit)];
    } else if index + 1 > numFileCols {
      return records, index, Fail(NoColumnInfo(index + 1));
    }
    DeclareConfigures(colv, pci, numFileCols, description, quantity, defaultUnit, units, records);
    var col;
    col, r := ConfigureColumn(records, index, description, quantity, units);
    records := records[index := col];
    index := index + 1;
  }

  class TextInFile {
    /** The part of the file not read yet. */
    var rest: string
    /** The column records: one per header column, or one per declared column without header. */
    var colv: seq<ColumnInfo>
    /** The number of program columns declared so far. */
    var programColIndex: nat
    /** The number of columns described by the header, 0 when there is none. */
    const numFileCols: nat
    const units: UnitSystem
    const ft: FloatText

    ghost predicate Valid()
      reads this
    {
      Bookkeeping(colv, programColIndex, numFileCols)
    }

    /** The reader right after its header was read into `header`. */
    constructor (input: string, header: seq<ColumnInfo>, unitSystem: UnitSystem, floats: FloatText)
      requires AllFresh(header)
      ensures rest == input && colv == header && programColIndex == 0 && numFileCols == |header|
      ensures units == unitSystem && ft == floats
      ensures Valid()
    {
      rest := input;
      colv := header;
      programColIndex := 0;
      numFileCols := |header|;
      units := unitSystem;
      ft := floats;
    }

    method AddColumn(description: string, quantity: string, defaultUnit: string) returns (r: Outcome<Error>)
      requires Valid()
      modifies this`colv, this`programColIndex
      ensures var d := Declare(old(colv), old(programColIndex), numFileCols, description, quantity, defaultUnit, units);
              colv == d.colv && programColIndex == d.programColIndex && r == d.outcome
      ensures r.Pass? ==> Valid()
    {
      var records, index;
      records, index, r := DeclareColumn(colv, programColIndex, numFileCols, description, quantity, defaultUnit, units);
      DeclareKeepsBookkeeping(colv, programColIndex, numFileCols, description, quantity, defaultUnit, units);
      colv, programColIndex := records, index;
    }

    /** readRow (TextInFile.cpp:226-264). The row array is `values` itself when it has one entry per
        column, and otherwise a new array of zeros of that size. After a fatal error the contents of
        the row array are not stated. */
    method ReadRow(values: array<real>) returns (r: Result<bool, Error>, row: array<real>)
      requires Valid()
      modifies this`rest, values
      ensures Valid()
      ensures |colv| == 0 ==> r == Fatal(NoColumnsDeclared) && rest == old(rest) && row == values && unchanged(values)
      ensures |colv| > 0 && NextDataLine(old(rest)).None? ==>
                r == Ok(false) && rest == [] && row == values && unchanged(values)
      ensures |colv| > 0 && NextDataLine(old(rest)).Some? ==>
                && rest == NextDataLine(old(rest)).value.1
                && row.Length == |colv|
                && (values.Length == |colv| ==> row == values)
                && (values.Length != |colv| ==> fresh(row) && unchanged(values))
                && match ScanFrom(ft, NextDataLine(old(rest)).value.0, false, |colv|)
                   case Fatal(e) => r == Fatal(e)
                   case Ok(xs) =>
                     r == Ok(true)
                     && row[..] == Converted(ft, colv, xs, if values.Length == |colv| then old(values[..]) else Zeros(|colv|))
    {
      var ncols := |colv|;
      row := values;
      if ncols == 0 {
        return Fatal(NoColumnsDeclared), row;
      }
      ghost var next := NextDataLine(rest);
      while rest != []
        invariant NextDataLine(rest) == next
        invariant unchanged(values) && row == values
        decreases |rest|
      {
        var cut := GetLine(rest);
        rest := cut.1;
        var line := cut.0;
        if !IsSkippedLine(line) {
          assert next == Some((line, rest));
          ghost var start := if values.Length == ncols then old(values[..]) else Zeros(ncols);
          assert values[..] == old(values[..]);
          if values.Length != ncols {
            row := new real[ncols](_ => 0.0);
          }
          assert row[..] == start;
          r := ReadValues(ft, colv, line, row);
          return r, row;
        }
      }
      return Ok(false), row;
    }

    /** readAllRows (TextInFile.cpp:313-326): the remaining rows, or the first fatal error. */
    method ReadAllRows() returns (r: Result<seq<seq<real>>, Error>)
      requires Valid()
      modifies this`rest
      ensures Valid()
      ensures |colv| == 0 ==> r == Fatal(NoColumnsDeclared)
      ensures |colv| > 0 ==> r == AllRows(ft, colv, old(rest))
      ensures r.Ok? ==> rest == []
    {
      var rows: seq<seq<real>> := [];
      if |colv| > 0 {
        PrependNothing(AllRows(ft, colv, rest));
      }
      while true
        invariant Valid()
        invariant |colv| > 0 ==> Prepend(rows, AllRows(ft, colv, rest)) == AllRows(ft, colv, old(rest))
        decreases |rest|
      {
        var values := new real[0];
        var ok, row := ReadRow(values);
        match ok {
          case Fatal(e) =>
            return Fatal(e);
          case Ok(more) =>
            if !more {
              assert rows + [] == rows;
              return Ok(rows);
            }
            PrependTwice(rows, [row[..]], AllRows(ft, colv, rest));
            rows := rows + [row[..]];
        }
      }
    }

    /** readAllColumns (TextInFile.cpp:330-344): the remaining rows, transposed into columns. */
    method ReadAllColumns() returns (r: Result<seq<seq<real>>, Error>)
      requires Valid()
      modifies this`rest
      ensures Valid()
      ensures |colv| == 0 ==> r == Fatal(NoColumnsDeclared)
      ensures |colv| > 0 ==> match AllRows(ft, colv, old(rest))
                             case Fatal(e) => r == Fatal(e)
                             case Ok(rows) => r.Ok? && IsTranspose(r.value, rows, |colv|)
    {
      var rows := ReadAllRows();
      match rows {
        case Fatal(e) =>
          return Fatal(e);
        case Ok(table) =>
          var columns := Transpose(table, |colv|);
          return Ok(columns);
      }
    }

    /** readNonLeaf (TextInFile.cpp:268-309): the subdivision counts of the next non-leaf line, or
        None when the next character starts something else. */
    method ReadNonLeaf() returns (r: Result<Option<Subdivision>, Error>)
      modifies this`rest
      ensures (r, rest) == NonLeaf(old(rest))
    {
      while true
        invariant NonLeaf(rest) == NonLeaf(old(rest))
        decreases |rest|
      {
        if rest != [] && rest[0] == '#' {
          rest := GetLine(rest).1;
        } else if rest != [] && rest[0] == '!' {
          var cut := GetLine(rest[1..]);
          rest := cut.1;
          var counts := ExtractSubdivision(cut.0);
          if counts.None? {
            return Fatal(BadNonLeaf);
          }
          return Ok(counts);
        } else if rest != [] && IsStreamSpace(rest[0]) {
          rest := rest[1..];
        } else {
          return Ok(None);
        }
      }
    }
  }

  /** The constructor of the reader (TextInFile.cpp:113-143) given the file contents: the header is
      read, and its records fix the number of file columns. */
  method Open(text: string, units: UnitSystem, ft: FloatText) returns (r: Result<TextInFile, Error>)
    ensures HeaderFrom(text, []).Fatal? ==> r == Fatal(HeaderFrom(text, []).error)
    ensures HeaderFrom(text, []).Ok? ==>
              && r.Ok? && fresh(r.value) && r.value.Valid()
              && (r.value.colv, r.value.rest) == HeaderFrom(text, []).value
              && r.value.numFileCols == |r.value.colv| && r.value.programColIndex == 0
              && r.value.units == units && r.value.ft == ft
  {
    var header := ReadHeader(text);
    match header {
      case Fatal(e) =>
        return Fatal(e);
      case Ok((colv, rest)) =>
        var reader := new TextInFile(rest, colv, units, ft);
        return Ok(reader);
    }
  }
}
