/** The pipeline engine: a frame whose columns the `perform_*` steps rewrite in place, in the
    fixed order of `normalize_gdf`. */
module Pipeline {
  import opened Wrappers
  import opened Text
  import opened NormalizationFunctions
  import opened ColumnNames

  /** One value of a column; None is a missing value. */
  type Cell = Option<string>

  /** A frame's contents: a header, one value sequence per column, and the geometry column. */
  datatype Table = Table(columns: seq<string>, values: seq<seq<Cell>>, geometry: seq<string>)

  /** One value sequence per header entry, every one as long as the geometry column. */
  predicate WellShaped(t: Table) {
    |t.values| == |t.columns| && forall c :: 0 <= c < |t.values| ==> |t.values[c]| == |t.geometry|
  }

  /** A table as a data frame holds it. */
  type ShapedTable = t: Table | WellShaped(t) witness Table([], [], [])

  /** The request fields the pipeline reads: a list of column names per operation (empty when the
      operation is not selected), and the transliteration languages. */
  datatype NormalizeForm = NormalizeForm(
    resourceType: string,
    response: string,
    dateNormalization: seq<string>,
    phoneNormalization: seq<string>,
    specialCharacterNormalization: seq<string>,
    alphabeticalNormalization: seq<string>,
    caseNormalization: seq<string>,
    transliteration: seq<string>,
    transliterationLangs: seq<string>,
    transliterationLang: string,
    valueCleaning: seq<string>,
    wktNormalization: seq<string>,
    columnNameNormalization: seq<string>)

  /** The libraries the pipeline calls, as functions: `strptime`/`strftime`, nltk's tokenizer, the
      transliteration back ends, the geometry library's `make_valid` and `normalize`, and the
      message the data-frame library raises for a missing column. */
  datatype Library = Library(
    reformat: Reformat,
    tokenize: string -> seq<string>,
    transliterator: Transliterator,
    makeValid: string -> string,
    normalizeGeometry: string -> string,
    missingColumnMessage: string -> string)

  /** Why a step stopped: `abort(400, description)`, a missing column, or an exception raised by a
      transform. */
  datatype Fault = BadRequest(description: string) | MissingColumn(name: string) | Raised(message: string)

  /** `str(e)` of the fault, as `enqueue` stores it in the ticket's comment. */
  function FaultMessage(f: Fault, lib: Library): string {
    match f
    case BadRequest(d) => "400 Bad Request: " + d
    case MissingColumn(n) => lib.missingColumnMessage(n)
    case Raised(m) => m
  }

  const TRANSLITERATION_LANGS_MISSING :=
    "You selected the transliteration option without specifying the sources language(s)"

  // ---------------------------------------------------------------------------------------------
  // One cell, one column

  /** The column-scoped operations; transliteration carries its resolved source languages. */
  datatype CellOp = DateOp | PhoneOp | SpecialCharacterOp | AlphabeticalOp | CaseOp
                  | TransliterationOp(langs: SourceLangs) | ValueCleaningOp

  function Lift(r: Result<string>): (c: Result<Cell>)
    ensures c.Success? <==> r.Success?
  {
    match r
    case Success(v) => Success(Some(v))
    case Failure(e) => Failure(e)
  }

  /** The lambda each `perform_*` step applies to a value. */
  function ApplyCell(op: CellOp, x: Cell, lib: Library): Result<Cell> {
    match op
    case DateOp => Success(DateNormalized(x, DEFAULT_DATE_FORMAT, lib.reformat))
    case PhoneOp => Lift(PhoneNormalization(x, ""))
    case SpecialCharacterOp => Success(Some(SpecialCharacterNormalization(x)))
    case AlphabeticalOp => Success(Some(AlphabeticallyNormalized(x, lib.tokenize)))
    case CaseOp => Success(Some(CaseNormalization(x)))
    case TransliterationOp(langs) =>
      Success(if x.None? then None
              else Some(Transliterated(x.value, x.value, LangList(langs), DEFAULT_TARGET_LANG, lib.transliterator)))
    case ValueCleaningOp => Lift(ValueCleaning(x))
  }

  /** Only phone normalisation and value cleaning can raise, and only on a missing value. */
  lemma ApplyCellFails(op: CellOp, x: Cell, lib: Library)
    ensures ApplyCell(op, x, lib).Failure? <==> x.None? && (op.PhoneOp? || op.ValueCleaningOp?)
  {
  }

  /** The lambda, calling the loop-based transforms where the source has loops. */
  method ApplyCellMethod(op: CellOp, x: Cell, lib: Library) returns (r: Result<Cell>)
    ensures r == ApplyCell(op, x, lib)
  {
    match op
    case DateOp =>
      var d := DateNormalization(x, DEFAULT_DATE_FORMAT, lib.reformat);
      r := Success(d);
    case AlphabeticalOp =>
      var a := AlphabeticalNormalization(x, lib.tokenize);
      r := Success(Some(a));
    case TransliterationOp(langs) =>
      var t := Transliteration(x, langs, DEFAULT_TARGET_LANG, lib.transliterator);
      r := Success(t);
    case _ =>
      r := ApplyCell(op, x, lib);
  }

  /** The lambda of a step as a function value, as `apply` receives it. */
  function CellFn(op: CellOp, lib: Library): Cell -> Result<Cell> {
    x => ApplyCell(op, x, lib)
  }

  /** `column.apply(f)`: every value in order, stopping at the first that raises. */
  function ApplyColumn(f: Cell -> Result<Cell>, cells: seq<Cell>): (r: Result<seq<Cell>>)
    ensures r.Success? ==> |r.value| == |cells|
    decreases |cells|
  {
    if cells == [] then Success([])
    else match ApplyColumn(f, cells[..|cells| - 1])
      case Failure(e) => Failure(e)
      case Success(init) =>
        match f(cells[|cells| - 1])
        case Failure(e) => Failure(e)
        case Success(x) => Success(init + [x])
  }

  /** A column succeeds exactly when every value does, and then holds the transformed values in
      place. */
  lemma {:induction false} ApplyColumnFacts(f: Cell -> Result<Cell>, cells: seq<Cell>)
    ensures var r := ApplyColumn(f, cells);
      (r.Success? <==> forall k :: 0 <= k < |cells| ==> f(cells[k]).Success?) &&
      (r.Success? ==> forall k :: 0 <= k < |cells| ==> r.value[k] == f(cells[k]).value)
    decreases |cells|
  {
    if cells != [] {
      var init := cells[..|cells| - 1];
      ApplyColumnFacts(f, init);
      assert forall k :: 0 <= k < |init| ==> init[k] == cells[k];
    }
  }

  /** A failing column fails with the error of the first value that raises. */
  lemma {:induction false} ApplyColumnFirstFailure(f: Cell -> Result<Cell>, cells: seq<Cell>)
    requires ApplyColumn(f, cells).Failure?
    ensures exists k :: 0 <= k < |cells| && f(cells[k]) == Failure(ApplyColumn(f, cells).error) &&
                        forall j :: 0 <= j < k ==> f(cells[j]).Success?
    decreases |cells|
  {
    var init := cells[..|cells| - 1];
    assert forall k :: 0 <= k < |init| ==> init[k] == cells[k];
    if ApplyColumn(f, init).Failure? {
      ApplyColumnFirstFailure(f, init);
    } else {
      ApplyColumnFacts(f, init);
      var k := |cells| - 1;
      assert f(cells[k]) == Failure(ApplyColumn(f, cells).error);
    }
  }

  /** Once a prefix of the column fails, the column fails with the same error. */
  lemma {:induction false} ApplyColumnPrefixFailure(f: Cell -> Result<Cell>, cells: seq<Cell>, j: nat)
    requires j <= |cells| && ApplyColumn(f, cells[..j]).Failure?
    ensures ApplyColumn(f, cells) == ApplyColumn(f, cells[..j])
    decreases |cells| - j
  {
    if j < |cells| {
      assert cells[..j + 1][..j] == cells[..j];
      ApplyColumnPrefixFailure(f, cells, j + 1);
    } else {
      assert cells[..j] == cells;
    }
  }

  /** One more value of the column: the prefix grows by its result, or fails with its error. */
  lemma ApplyColumnStep(f: Cell -> Result<Cell>, cells: seq<Cell>, i: nat, out: seq<Cell>, y: Result<Cell>)
    requires i < |cells| && ApplyColumn(f, cells[..i]) == Success(out) && f(cells[i]) == y
    ensures ApplyColumn(f, cells[..i + 1]) == if y.Failure? then Failure(y.error) else Success(out + [y.value])
  {
    assert cells[..i + 1][..i] == cells[..i];
  }

  /** The column loop of `apply`, with a step's lambda. */
  method ApplyColumnMethod(op: CellOp, cells: seq<Cell>, lib: Library) returns (r: Result<seq<Cell>>)
    ensures r == ApplyColumn(CellFn(op, lib), cells)
  {
    var f := CellFn(op, lib);
    var out := [];
    for i := 0 to |cells|
      invariant ApplyColumn(f, cells[..i]) == Success(out)
    {
      var x := ApplyCellMethod(op, cells[i], lib);
      ApplyColumnStep(f, cells, i, out, x);
      if x.Failure? {
        ApplyColumnPrefixFailure(f, cells, i + 1);
        return Failure(x.error);
      }
      out := out + [x.value];
    }
    assert cells[..|cells|] == cells;
    r := Success(out);
  }

  // ---------------------------------------------------------------------------------------------
  // A column-scoped step

  /** `gdf[column]`: the first column with that name. */
  function Lookup(columns: seq<string>, name: string): (r: Option<nat>)
    ensures r.None? <==> name !in columns
    ensures r.Some? ==> r.value < |columns| && columns[r.value] == name &&
                        forall j :: 0 <= j < r.value ==> columns[j] != name
  {
    if columns == [] then None
    else if columns[0] == name then Some(0)
    else match Lookup(columns[1..], name)
      case None => None
      case Some(i) => Some(i + 1)
  }

  /** The values after a step, and the fault that stopped it, if any. */
  datatype StepOutcome = StepOutcome(values: seq<seq<Cell>>, fault: Option<Fault>)

  /** `for column in listed: gdf[column] = gdf[column].apply(f)`, stopping at the first missing
      column or raising value; the columns already rewritten stay rewritten. */
  function ApplyToColumns(columns: seq<string>, values: seq<seq<Cell>>, listed: seq<string>,
                          op: CellOp, lib: Library): (s: StepOutcome)
    requires |values| == |columns|
    ensures |s.values| == |values|
    decreases |listed|
  {
    if listed == [] then StepOutcome(values, None)
    else match Lookup(columns, listed[0])
      case None => StepOutcome(values, Some(MissingColumn(listed[0])))
      case Some(c) =>
        match ApplyColumn(CellFn(op, lib), values[c])
        case Failure(e) => StepOutcome(values, Some(Raised(e)))
        case Success(col) => ApplyToColumns(columns, values[c := col], listed[1..], op, lib)
  }

  /** A step keeps every column's length, and leaves alone every column whose name is not listed. */
  lemma {:induction false} ApplyToColumnsUntouched(columns: seq<string>, values: seq<seq<Cell>>,
                                                   listed: seq<string>, op: CellOp, lib: Library)
    requires |values| == |columns|
    ensures var s := ApplyToColumns(columns, values, listed, op, lib);
      (forall c :: 0 <= c < |values| ==> |s.values[c]| == |values[c]|) &&
      (forall c :: 0 <= c < |values| && columns[c] !in listed ==> s.values[c] == values[c])
    decreases |listed|
  {
    if listed != [] {
      match Lookup(columns, listed[0])
      case None =>
      case Some(c) =>
        match ApplyColumn(CellFn(op, lib), values[c])
        case Failure(e) =>
        case Success(col) =>
          ApplyToColumnsUntouched(columns, values[c := col], listed[1..], op, lib);
          assert forall n :: n in listed[1..] ==> n in listed;
    }
  }

  /** A step that completes has found every listed column. */
  lemma {:induction false} ApplyToColumnsFindsAll(columns: seq<string>, values: seq<seq<Cell>>,
                                                  listed: seq<string>, op: CellOp, lib: Library)
    requires |values| == |columns|
    requires ApplyToColumns(columns, values, listed, op, lib).fault.None?
    ensures forall n :: n in listed ==> n in columns
    decreases |listed|
  {
    if listed != [] {
      var c := Lookup(columns, listed[0]).value;
      var col := ApplyColumn(CellFn(op, lib), values[c]).value;
      ApplyToColumnsFindsAll(columns, values[c := col], listed[1..], op, lib);
      assert listed == [listed[0]] + listed[1..];
    }
  }

  /** Running the names `l1 + l2` is running `l1`, then, unless it stopped on a fault, running
      `l2` on the values it left. */
  lemma {:induction false} ApplyToColumnsAppend(columns: seq<string>, values: seq<seq<Cell>>,
                                                l1: seq<string>, l2: seq<string>, op: CellOp, lib: Library)
    requires |values| == |columns|
    ensures var s1 := ApplyToColumns(columns, values, l1, op, lib);
      ApplyToColumns(columns, values, l1 + l2, op, lib) ==
        if s1.fault.Some? then s1 else ApplyToColumns(columns, s1.values, l2, op, lib)
    decreases |l1|
  {
    if l1 == [] {
      assert l1 + l2 == l2;
    } else {
      var l := l1 + l2;
      assert l[0] == l1[0] && l[1..] == l1[1..] + l2;
      match Lookup(columns, l1[0])
      case None =>
      case Some(c) =>
        match ApplyColumn(CellFn(op, lib), values[c])
        case Failure(e) =>
        case Success(col) =>
          ApplyToColumnsAppend(columns, values[c := col], l1[1..], l2, op, lib);
    }
  }

  /** Names other than `n` leave the column `c` named `n` alone, and the rest of the list runs on
      what they leave. */
  lemma PassOver(columns: seq<string>, values: seq<seq<Cell>>, l: seq<string>, rest: seq<string>,
                 n: string, c: nat, op: CellOp, lib: Library)
    requires |values| == |columns| && c < |columns| && columns[c] == n && n !in l
    requires ApplyToColumns(columns, values, l + rest, op, lib).fault.None?
    ensures var s := ApplyToColumns(columns, values, l, op, lib);
      s.fault.None? && s.values[c] == values[c] &&
      ApplyToColumns(columns, values, l + rest, op, lib) == ApplyToColumns(columns, s.values, rest, op, lib)
  {
    ApplyToColumnsAppend(columns, values, l, rest, op, lib);
    ApplyToColumnsUntouched(columns, values, l, op, lib);
  }

  /** The name `n`, found at `c`, then the rest of the list: the column is transformed once. */
  lemma PassOn(columns: seq<string>, values: seq<seq<Cell>>, n: string, rest: seq<string>, c: nat,
               op: CellOp, lib: Library)
    requires |values| == |columns| && Lookup(columns, n) == Some(c)
    requires ApplyToColumns(columns, values, [n] + rest, op, lib).fault.None?
    ensures var col := ApplyColumn(CellFn(op, lib), values[c]);
      col.Success? &&
      ApplyToColumns(columns, values, [n] + rest, op, lib) ==
        ApplyToColumns(columns, values[c := col.value], rest, op, lib)
  {
    ApplyToColumnsHead(columns, values, [n] + rest, op, lib, c);
    assert ([n] + rest)[1..] == rest;
  }

  /** A column listed twice, anywhere in the list, is transformed twice: the second pass sees the
      first pass's values, and no other name touches it. */
  lemma ApplyToColumnsTwice(columns: seq<string>, values: seq<seq<Cell>>, listed: seq<string>,
                            l1: seq<string>, n: string, l2: seq<string>, l3: seq<string>, c: nat,
                            op: CellOp, lib: Library)
    requires |values| == |columns| && Lookup(columns, n) == Some(c)
    requires listed == l1 + [n] + l2 + [n] + l3 && n !in l1 && n !in l2 && n !in l3
    ensures var s := ApplyToColumns(columns, values, listed, op, lib);
      var f := CellFn(op, lib);
      s.fault.None? ==>
        ApplyColumn(f, values[c]).Success? &&
        ApplyColumn(f, ApplyColumn(f, values[c]).value) == Success(s.values[c])
  {
    var f := CellFn(op, lib);
    var tail := l2 + ([n] + l3);
    assert listed == l1 + ([n] + tail);
    if ApplyToColumns(columns, values, listed, op, lib).fault.None? {
      PassOver(columns, values, l1, [n] + tail, n, c, op, lib);
      var v1 := ApplyToColumns(columns, values, l1, op, lib).values;
      PassOn(columns, v1, n, tail, c, op, lib);
      var once := ApplyColumn(f, v1[c]).value;
      var v2 := v1[c := once];
      PassOver(columns, v2, l2, [n] + l3, n, c, op, lib);
      var v3 := ApplyToColumns(columns, v2, l2, op, lib).values;
      PassOn(columns, v3, n, l3, c, op, lib);
      var twice := ApplyColumn(f, v3[c]).value;
      var v4 := v3[c := twice];
      ApplyToColumnsUntouched(columns, v4, l3, op, lib);
    }
  }

  /** One step of the loop over the listed names, for a name found at `c`. */
  lemma ApplyToColumnsHead(columns: seq<string>, values: seq<seq<Cell>>, listed: seq<string>, op: CellOp,
                           lib: Library, c: nat)
    requires |values| == |columns| && listed != [] && Lookup(columns, listed[0]) == Some(c)
    ensures var col := ApplyColumn(CellFn(op, lib), values[c]);
      ApplyToColumns(columns, values, listed, op, lib) ==
        if col.Failure? then StepOutcome(values, Some(Raised(col.error)))
        else ApplyToColumns(columns, values[c := col.value], listed[1..], op, lib)
  {
  }

  /** Replacing one column by one of the same length keeps a table well shaped. */
  lemma ReplaceColumnKeepsShape(t: Table, c: nat, col: seq<Cell>)
    requires WellShaped(t) && c < |t.values| && |col| == |t.values[c]|
    ensures WellShaped(Table(t.columns, t.values[c := col], t.geometry))
  {
  }

  /** `gdf[column] = gdf[column].apply(f)` for the first listed name: the column is looked up and
      replaced by its `apply`, or the step stops with a missing column or the raised error. */
  method RewriteColumn(columns: seq<string>, values: seq<seq<Cell>>, geometry: seq<string>,
                       listed: seq<string>, op: CellOp, lib: Library)
    returns (out: seq<seq<Cell>>, fault: Option<Fault>)
    requires WellShaped(Table(columns, values, geometry)) && listed != []
    ensures WellShaped(Table(columns, out, geometry))
    ensures fault.Some? ==> out == values
    ensures ApplyToColumns(columns, values, listed, op, lib) ==
      if fault.Some? then StepOutcome(values, fault) else ApplyToColumns(columns, out, listed[1..], op, lib)
  {
    var c := Lookup(columns, listed[0]);
    if c.None? {
      return values, Some(MissingColumn(listed[0]));
    }
    var col := ApplyColumnMethod(op, values[c.value], lib);
    ApplyToColumnsHead(columns, values, listed, op, lib, c.value);
    if col.Failure? {
      return values, Some(Raised(col.error));
    }
    ReplaceColumnKeepsShape(Table(columns, values, geometry), c.value, col.value);
    out, fault := values[c.value := col.value], None;
  }

  // ---------------------------------------------------------------------------------------------
  // Transliteration languages

  /** The languages `perform_transliteration` uses: the list plus the single language, the list,
      or the single language alone; None when neither is given. */
  function ResolveLanguages(langs: seq<string>, lang: string): (r: Option<SourceLangs>)
    ensures r.None? <==> langs == [] && lang == ""
    ensures langs != [] && lang != "" ==> r == Some(Langs(langs + [lang]))
    ensures langs != [] && lang == "" ==> r == Some(Langs(langs))
    ensures langs == [] && lang != "" ==> r == Some(Lang(lang))
  {
    if langs != [] && lang != "" then Some(Langs(langs + [lang]))
    else if langs != [] then Some(Langs(langs))
    else if lang != "" then Some(Lang(lang))
    else None
  }

  /** `perform_transliteration` on a frame's values. */
  function TransliterationStep(columns: seq<string>, values: seq<seq<Cell>>, form: NormalizeForm,
                               lib: Library): (s: StepOutcome)
    requires |values| == |columns|
    ensures |s.values| == |values|
  {
    if form.transliteration == [] then StepOutcome(values, None)
    else match ResolveLanguages(form.transliterationLangs, form.transliterationLang)
      case None => StepOutcome(values, Some(BadRequest(TRANSLITERATION_LANGS_MISSING)))
      case Some(langs) => ApplyToColumns(columns, values, form.transliteration, TransliterationOp(langs), lib)
  }

  /** Without any source language the step aborts with status 400 before touching a column. */
  lemma TransliterationAborts(columns: seq<string>, values: seq<seq<Cell>>, form: NormalizeForm, lib: Library)
    requires |values| == |columns|
    requires form.transliteration != [] && form.transliterationLangs == [] && form.transliterationLang == ""
    ensures TransliterationStep(columns, values, form, lib) ==
            StepOutcome(values, Some(BadRequest(TRANSLITERATION_LANGS_MISSING)))
  {
  }

  // ---------------------------------------------------------------------------------------------
  // The steps in order

  /** The next column step, unless an earlier one stopped. */
  function Then(s: StepOutcome, columns: seq<string>, op: CellOp, listed: seq<string>, lib: Library): (r: StepOutcome)
    requires |s.values| == |columns|
    ensures |r.values| == |s.values|
  {
    if s.fault.Some? then s else ApplyToColumns(columns, s.values, listed, op, lib)
  }

  /** The seven column-scoped steps of `normalize_gdf`, in its order: date, phone, special
      characters, alphabetical, case, transliteration, value cleaning. */
  function ValueSteps(t: Table, form: NormalizeForm, lib: Library): (s: StepOutcome)
    requires |t.values| == |t.columns|
    ensures |s.values| == |t.values|
  {
    var s1 := Then(StepOutcome(t.values, None), t.columns, DateOp, form.dateNormalization, lib);
    var s2 := Then(s1, t.columns, PhoneOp, form.phoneNormalization, lib);
    var s3 := Then(s2, t.columns, SpecialCharacterOp, form.specialCharacterNormalization, lib);
    var s4 := Then(s3, t.columns, AlphabeticalOp, form.alphabeticalNormalization, lib);
    var s5 := Then(s4, t.columns, CaseOp, form.caseNormalization, lib);
    var s6 := if s5.fault.Some? then s5 else TransliterationStep(t.columns, s5.values, form, lib);
    Then(s6, t.columns, ValueCleaningOp, form.valueCleaning, lib)
  }

  /** The geometry after `make_valid` and then `normalize`. */
  function WktNormalized(geometry: seq<string>, lib: Library): (g: seq<string>)
    ensures |g| == |geometry|
    ensures forall i :: 0 <= i < |g| ==> g[i] == lib.normalizeGeometry(lib.makeValid(geometry[i]))
  {
    seq(|geometry|, i requires 0 <= i < |geometry| => lib.normalizeGeometry(lib.makeValid(geometry[i])))
  }

  /** Every name any column-scoped step lists. */
  function ListedColumns(form: NormalizeForm): seq<string> {
    form.dateNormalization + form.phoneNormalization + form.specialCharacterNormalization +
    form.alphabeticalNormalization + form.caseNormalization + form.transliteration + form.valueCleaning
  }

  lemma ThenUntouched(s: StepOutcome, columns: seq<string>, op: CellOp, listed: seq<string>, lib: Library,
                      c: nat)
    requires |s.values| == |columns| && c < |columns| && columns[c] !in listed
    ensures Then(s, columns, op, listed, lib).values[c] == s.values[c]
  {
    if s.fault.None? {
      ApplyToColumnsUntouched(columns, s.values, listed, op, lib);
    }
  }

  /** The value steps leave alone every column that no step lists. */
  lemma ValueStepsUntouched(t: Table, form: NormalizeForm, lib: Library, c: nat)
    requires |t.values| == |t.columns| && c < |t.columns| && t.columns[c] !in ListedColumns(form)
    ensures ValueSteps(t, form, lib).values[c] == t.values[c]
  {
    var s1 := Then(StepOutcome(t.values, None), t.columns, DateOp, form.dateNormalization, lib);
    var s2 := Then(s1, t.columns, PhoneOp, form.phoneNormalization, lib);
    var s3 := Then(s2, t.columns, SpecialCharacterOp, form.specialCharacterNormalization, lib);
    var s4 := Then(s3, t.columns, AlphabeticalOp, form.alphabeticalNormalization, lib);
    var s5 := Then(s4, t.columns, CaseOp, form.caseNormalization, lib);
    var s6 := if s5.fault.Some? then s5 else TransliterationStep(t.columns, s5.values, form, lib);
    ThenUntouched(StepOutcome(t.values, None), t.columns, DateOp, form.dateNormalization, lib, c);
    ThenUntouched(s1, t.columns, PhoneOp, form.phoneNormalization, lib, c);
    ThenUntouched(s2, t.columns, SpecialCharacterOp, form.specialCharacterNormalization, lib, c);
    ThenUntouched(s3, t.columns, AlphabeticalOp, form.alphabeticalNormalization, lib, c);
    ThenUntouched(s4, t.columns, CaseOp, form.caseNormalization, lib, c);
    if s5.fault.None? && form.transliteration != [] {
      match ResolveLanguages(form.transliterationLangs, form.transliterationLang)
      case None =>
      case Some(langs) =>
        ApplyToColumnsUntouched(t.columns, s5.values, form.transliteration, TransliterationOp(langs), lib);
    }
    ThenUntouched(s6, t.columns, ValueCleaningOp, form.valueCleaning, lib, c);
  }

  /** The value steps keep the number of values in every column. */
  lemma ValueStepsKeepRows(t: Table, form: NormalizeForm, lib: Library)
    requires WellShaped(t)
    ensures var s := ValueSteps(t, form, lib);
      forall c :: 0 <= c < |s.values| ==> |s.values[c]| == |t.geometry|
  {
    var s1 := Then(StepOutcome(t.values, None), t.columns, DateOp, form.dateNormalization, lib);
    var s2 := Then(s1, t.columns, PhoneOp, form.phoneNormalization, lib);
    var s3 := Then(s2, t.columns, SpecialCharacterOp, form.specialCharacterNormalization, lib);
    var s4 := Then(s3, t.columns, AlphabeticalOp, form.alphabeticalNormalization, lib);
    var s5 := Then(s4, t.columns, CaseOp, form.caseNormalization, lib);
    var s6 := if s5.fault.Some? then s5 else TransliterationStep(t.columns, s5.values, form, lib);
    ThenKeepsRows(StepOutcome(t.values, None), t.columns, DateOp, form.dateNormalization, lib, |t.geometry|);
    ThenKeepsRows(s1, t.columns, PhoneOp, form.phoneNormalization, lib, |t.geometry|);
    ThenKeepsRows(s2, t.columns, SpecialCharacterOp, form.specialCharacterNormalization, lib, |t.geometry|);
    ThenKeepsRows(s3, t.columns, AlphabeticalOp, form.alphabeticalNormalization, lib, |t.geometry|);
    ThenKeepsRows(s4, t.columns, CaseOp, form.caseNormalization, lib, |t.geometry|);
    if s5.fault.None? && form.transliteration != [] {
      match ResolveLanguages(form.transliterationLangs, form.transliterationLang)
      case None =>
      case Some(langs) =>
        ApplyToColumnsUntouched(t.columns, s5.values, form.transliteration, TransliterationOp(langs), lib);
    }
    ThenKeepsRows(s6, t.columns, ValueCleaningOp, form.valueCleaning, lib, |t.geometry|);
  }

  lemma ThenKeepsRows(s: StepOutcome, columns: seq<string>, op: CellOp, listed: seq<string>, lib: Library,
                      rows: nat)
    requires |s.values| == |columns| && forall c :: 0 <= c < |s.values| ==> |s.values[c]| == rows
    ensures var r := Then(s, columns, op, listed, lib);
      forall c :: 0 <= c < |r.values| ==> |r.values[c]| == rows
  {
    if s.fault.None? {
      ApplyToColumnsUntouched(columns, s.values, listed, op, lib);
    }
  }

  /** A request that selects no operation changes nothing. */
  lemma NothingSelected(t: Table, form: NormalizeForm, lib: Library)
    requires |t.values| == |t.columns|
    requires ListedColumns(form) == []
    ensures ValueSteps(t, form, lib) == StepOutcome(t.values, None)
  {
  }

  /** `out` is what `normalize_gdf` makes of `t` when no step faults: the value steps' values, the
      WKT step's geometry, and the version-2 header when that step is selected. */
  ghost predicate IsNormalizedTable(out: Table, t: Table, form: NormalizeForm, lib: Library)
    requires |t.values| == |t.columns|
  {
    var s := ValueSteps(t, form, lib);
    s.fault.None? && out.values == s.values &&
    out.geometry == (if form.wktNormalization != [] then WktNormalized(t.geometry, lib) else t.geometry) &&
    (form.columnNameNormalization == [] ==> out.columns == t.columns) &&
    (form.columnNameNormalization != [] ==> IsNormalizedHeader(out.columns, t.columns, 2, lib.transliterator))
  }

  // ---------------------------------------------------------------------------------------------
  // The frame

  /** The geovaex data frame `normalize_gdf` threads through the steps. */
  class Frame {
    var columns: seq<string>
    var values: seq<seq<Cell>>
    var geometry: seq<string>

    function Snapshot(): Table
      reads this
    {
      Table(columns, values, geometry)
    }

    ghost predicate Valid()
      reads this
    {
      WellShaped(Snapshot())
    }

    constructor (t: Table)
      requires WellShaped(t)
      ensures Snapshot() == t && Valid()
    {
      columns, values, geometry := t.columns, t.values, t.geometry;
    }

    /** A column-scoped `perform_*` step over the listed columns, rewriting the frame's values. */
    method PerformColumnStep(op: CellOp, listed: seq<string>, lib: Library) returns (fault: Option<Fault>)
      requires Valid()
      modifies this
      ensures Valid()
      ensures var s := ApplyToColumns(old(columns), old(values), listed, op, lib);
        values == s.values && fault == s.fault
      ensures columns == old(columns) && geometry == old(geometry)
    {
      var i := 0;
      while i < |listed|
        invariant 0 <= i <= |listed|
        invariant columns == old(columns) && geometry == old(geometry) && Valid()
        invariant ApplyToColumns(columns, old(values), listed, op, lib) ==
                  ApplyToColumns(columns, values, listed[i..], op, lib)
      {
        var next, f := RewriteColumn(columns, values, geometry, listed[i..], op, lib);
        if f.Some? {
          return f;
        }
        assert listed[i..][1..] == listed[i + 1..];
        values, i := next, i + 1;
      }
      fault := None;
    }

    /** `perform_transliteration`. */
    method PerformTransliteration(form: NormalizeForm, lib: Library) returns (fault: Option<Fault>)
      requires Valid()
      modifies this
      ensures Valid()
      ensures var s := TransliterationStep(old(columns), old(values), form, lib);
        values == s.values && fault == s.fault
      ensures columns == old(columns) && geometry == old(geometry)
    {
      if form.transliteration == [] {
        return None;
      }
      var langs := ResolveLanguages(form.transliterationLangs, form.transliterationLang);
      if langs.None? {
        return Some(BadRequest(TRANSLITERATION_LANGS_MISSING));
      }
      fault := PerformColumnStep(TransliterationOp(langs.value), form.transliteration, lib);
    }

    /** `perform_wkt_normalization`: `make_valid` then `normalize`, both in place. */
    method PerformWktNormalization(form: NormalizeForm, lib: Library)
      requires Valid()
      modifies this
      ensures Valid()
      ensures geometry == if form.wktNormalization != [] then WktNormalized(old(geometry), lib) else old(geometry)
      ensures columns == old(columns) && values == old(values)
    {
      if form.wktNormalization != [] {
        var g := geometry;
        geometry := seq(|g|, i requires 0 <= i < |g| => lib.makeValid(g[i]));
        g := geometry;
        geometry := seq(|g|, i requires 0 <= i < |g| => lib.normalizeGeometry(g[i]));
      }
    }

    /** `perform_column_name_normalization`: the header is replaced by its version-2
        normalisation; the values stay. */
    method PerformColumnNameNormalization(form: NormalizeForm, lib: Library)
      requires Valid()
      modifies this
      ensures Valid()
      ensures form.columnNameNormalization == [] ==> columns == old(columns)
      ensures form.columnNameNormalization != [] ==>
        IsNormalizedHeader(columns, old(columns), 2, lib.transliterator)
      ensures values == old(values) && geometry == old(geometry)
    {
      if form.columnNameNormalization != [] {
        columns := ColumnNameNormalization(columns, 2, lib.transliterator);
      }
    }

    /** `normalize_gdf`: the nine steps in their fixed order, stopping at the first fault. */
    method NormalizeGdf(form: NormalizeForm, lib: Library) returns (fault: Option<Fault>)
      requires Valid()
      modifies this
      ensures Valid()
      ensures fault == ValueSteps(old(Snapshot()), form, lib).fault
      ensures fault.Some? ==> values == ValueSteps(old(Snapshot()), form, lib).values &&
                              columns == old(columns) && geometry == old(geometry)
      ensures fault.None? ==> IsNormalizedTable(Snapshot(), old(Snapshot()), form, lib)
    {
      ghost var t := Snapshot();
      fault := PerformColumnStep(DateOp, form.dateNormalization, lib);
      if fault.Some? { return; }
      fault := PerformColumnStep(PhoneOp, form.phoneNormalization, lib);
      if fault.Some? { return; }
      fault := PerformColumnStep(SpecialCharacterOp, form.specialCharacterNormalization, lib);
      if fault.Some? { return; }
      fault := PerformColumnStep(AlphabeticalOp, form.alphabeticalNormalization, lib);
      if fault.Some? { return; }
      fault := PerformColumnStep(CaseOp, form.caseNormalization, lib);
      if fault.Some? { return; }
      fault := PerformTransliteration(form, lib);
      if fault.Some? { return; }
      fault := PerformColumnStep(ValueCleaningOp, form.valueCleaning, lib);
      if fault.Some? { return; }
      PerformWktNormalization(form, lib);
      PerformColumnNameNormalization(form, lib);
    }
  }
}
