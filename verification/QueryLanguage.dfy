/** What the query parser accepts: the language of its texts, a printer, and freedom of layout. */
module QueryLanguage {
  import opened ByteStrings
  import opened QueryTexts
  import opened QueryParsers
  import opened QueryReading
  import opened QueryAccepting

  /** The input is a well-formed text of the query. */
  ghost predicate Denotes(input: Bytes, q: Query) {
    exists t: QueryText :: ValidQuery(t) && QueryBytes(t) == input && QueryOf(t) == q
  }

  /** The parser accepts exactly the well-formed texts, each as the query it denotes. */
  lemma ParserDecides(input: Bytes, q: Query)
    ensures QueryAt(input) == Done(q, []) <==> Denotes(input, q)
  {
    hide ValidQuery, QueryBytes, QueryOf, SelectsAt, ExpectAt, SkipSpace;
    if QueryAt(input) == Done(q, []) {
      var t := InputAccepted(input);
      assert ValidQuery(t) && QueryBytes(t) == input && QueryOf(t) == q;
    }
    if Denotes(input, q) {
      var t: QueryText :| ValidQuery(t) && QueryBytes(t) == input && QueryOf(t) == q;
      TextParses(t);
    }
  }

  /** No input is a text of two queries. */
  lemma Unambiguous(s: QueryText, t: QueryText)
    requires ValidQuery(s) && ValidQuery(t) && QueryBytes(s) == QueryBytes(t)
    ensures QueryOf(s) == QueryOf(t)
  {
    hide ValidQuery, QueryBytes, QueryOf, QueryAt;
    TextParses(s);
    TextParses(t);
  }

  //
  // A printer
  //

  function DigitsOf(n: nat): (s: Bytes)
    ensures s != []
  {
    (if n < 10 then [] else DigitsOf(n / 10)) + [48 + n % 10]
  }

  lemma {:induction false} DigitsOfDecimal(n: nat)
    ensures AllDigits(DigitsOf(n)) && Decimal(DigitsOf(n)) == n
  {
    var s := DigitsOf(n);
    if n >= 10 { DigitsOfDecimal(n / 10); assert s[..|s| - 1] == DigitsOf(n / 10); } else { assert s[..|s| - 1] == []; }
  }

  predicate PrintableFilter(f: Filter) {
    match f
    case Skip(n) => n < USIZE_LIMIT
    case Take(n) => n < USIZE_LIMIT
    case After(name) => QUOTE !in name
    case Before(name) => QUOTE !in name
  }

  predicate PrintableFilters(fs: seq<Filter>) {
    fs != [] ==> PrintableFilter(fs[0]) && PrintableFilters(fs[1..])
  }

  /** Names without a quote, numbers of 64 bits. */
  predicate PrintableSelect(s: Select)
    decreases s, 0
  {
    && QUOTE !in s.name && (s.alias.Some? ==> QUOTE !in s.alias.value)
    && PrintableFilters(s.filters) && PrintableSelects(s.subselects)
  }

  predicate PrintableSelects(ss: seq<Select>)
    decreases ss, 0
  {
    ss != [] ==> PrintableSelect(ss[0]) && PrintableSelects(ss[1..])
  }

  predicate Printable(q: Query) { PrintableSelects(q.selects) }

  /** Names are quoted; each item is followed by a comma. */
  function NameTextOf(name: Bytes): NameText { Quoted([32], name) }

  function FilterTextOf(f: Filter): FilterText {
    match f
    case Skip(n) => FilterText([], SkipWord, [], Digits([32], DigitsOf(n)), Some([]))
    case Take(n) => FilterText([], TakeWord, [], Digits([32], DigitsOf(n)), Some([]))
    case After(name) => FilterText([], AfterWord, [], Named(NameTextOf(name)), Some([]))
    case Before(name) => FilterText([], BeforeWord, [], Named(NameTextOf(name)), Some([]))
  }

  function FilterTextsOf(fs: seq<Filter>): seq<FilterText> {
    if fs == [] then [] else [FilterTextOf(fs[0])] + FilterTextsOf(fs[1..])
  }

  function SelectTextOf(s: Select): SelectText
    decreases s, 0
  {
    SelectText(NameTextOf(s.name), if s.alias.Some? then Some(AliasText([32], NameTextOf(s.alias.value))) else None,
               if s.filters == [] then None else Some(FilterList([], FilterTextsOf(s.filters), [])),
               if s.subselects == [] then None else Some(SelectList([32], SelectTextsOf(s.subselects), [32])),
               Some([]))
  }

  function SelectTextsOf(ss: seq<Select>): seq<SelectText>
    decreases ss, 0
  {
    if ss == [] then [] else [SelectTextOf(ss[0])] + SelectTextsOf(ss[1..])
  }

  function Print(q: Query): Bytes {
    QueryBytes(QueryText(SelectList([], SelectTextsOf(q.selects), [32]), []))
  }

  lemma FilterPrint(f: Filter)
    requires PrintableFilter(f)
    ensures ValidFilter(FilterTextOf(f)) && FilterOf(FilterTextOf(f)) == f && FilterTextOf(f).comma == Some([])
  {
    hide DigitsOf, Decimal, AllDigits, AllSpace, ValidName, NameTextOf;
    Spaces();
    match f {
      case Skip(n) => DigitsOfDecimal(n);
      case Take(n) => DigitsOfDecimal(n);
      case After(name) => NamePrint(name);
      case Before(name) => NamePrint(name);
    }
  }

  lemma Spaces()
    ensures AllSpace([]) && AllSpace([32])
  {
  }

  lemma NamePrint(name: Bytes)
    requires QUOTE !in name
    ensures ValidName(NameTextOf(name)) && NameTextOf(name).text == name
  {
  }

  lemma {:induction false} FiltersPrint(fs: seq<Filter>)
    requires PrintableFilters(fs)
    ensures ValidFilters(FilterTextsOf(fs)) && FiltersOf(FilterTextsOf(fs)) == fs
  {
    hide FilterTextOf, FilterOf, ValidFilter, FilterApart;
    if fs != [] {
      FilterPrint(fs[0]);
      FiltersPrint(fs[1..]);
      assert FilterTextsOf(fs)[1..] == FilterTextsOf(fs[1..]);
    }
  }

  lemma {:induction false} SelectPrint(s: Select)
    requires PrintableSelect(s)
    ensures ValidSelect(SelectTextOf(s)) && SelectOf(SelectTextOf(s)) == s
    decreases s, 0
  {
    hide FilterTextsOf, SelectTextsOf, ValidFilters, ValidSelects, FiltersOf, SelectsOf, PrintableFilters,
      PrintableSelects;
    FiltersPrint(s.filters);
    SelectsPrint(s.subselects);
  }

  lemma {:induction false} SelectsPrint(ss: seq<Select>)
    requires PrintableSelects(ss)
    ensures ValidSelects(SelectTextsOf(ss)) && SelectsOf(SelectTextsOf(ss)) == ss
    decreases ss, 0
  {
    hide ValidSelect, SelectOf, PrintableSelect;
    if ss != [] {
      SelectPrint(ss[0]);
      SelectsPrint(ss[1..]);
      assert SelectTextsOf(ss)[1..] == SelectTextsOf(ss[1..]);
      assert SelectTextOf(ss[0]).comma == Some([]);
    }
  }

  /** The parser undoes the printer. */
  lemma ParserUndoesPrinter(q: Query)
    requires Printable(q)
    ensures QueryAt(Print(q)) == Done(q, [])
  {
    hide SelectTextsOf, ValidSelects, SelectsOf, QueryAt, QueryBytes;
    SelectsPrint(q.selects);
    TextParses(QueryText(SelectList([], SelectTextsOf(q.selects), [32]), []));
  }

  lemma WordHasNoQuote(s: Bytes)
    requires AllWord(s)
    ensures QUOTE !in s
  {
  }

  lemma NameIsPrintable(n: NameText)
    requires ValidName(n)
    ensures QUOTE !in n.text
  {
    hide AllWord;
    if n.Bare? { WordHasNoQuote(n.text); }
  }

  lemma {:induction false} FiltersArePrintable(items: seq<FilterText>)
    requires ValidFilters(items)
    ensures PrintableFilters(FiltersOf(items))
  {
    hide Decimal, ValidName, AllDigits;
    if items != [] {
      if items[0].argument.Named? { NameIsPrintable(items[0].argument.name); }
      FiltersArePrintable(items[1..]);
      assert FiltersOf(items)[1..] == FiltersOf(items[1..]);
    }
  }

  lemma {:induction false} SelectIsPrintable(s: SelectText)
    requires ValidSelect(s)
    ensures PrintableSelect(SelectOf(s))
    decreases s, 0
  {
    hide ValidName, ValidFilters, ValidSelects, FiltersOf, SelectsOf, PrintableFilters;
    NameIsPrintable(s.name);
    if s.alias.Some? { NameIsPrintable(s.alias.value.name); }
    if s.filters.Some? { FiltersArePrintable(s.filters.value.items); } else { NothingToPrint(); }
    if s.subselects.Some? { SelectsArePrintable(s.subselects.value.items); }
  }

  lemma NothingToPrint()
    ensures PrintableFilters([])
  {
  }

  lemma {:induction false} SelectsArePrintable(items: seq<SelectText>)
    requires ValidSelects(items)
    ensures PrintableSelects(SelectsOf(items))
    decreases items, 0
  {
    hide ValidSelect, SelectOf, PrintableSelect;
    if items != [] {
      SelectIsPrintable(items[0]);
      SelectsArePrintable(items[1..]);
      assert SelectsOf(items)[1..] == SelectsOf(items[1..]);
    }
  }

  /** The queries that have a text at all are those whose names hold no quote and whose numbers fit a `usize`. */
  lemma ReadableIffPrintable(q: Query)
    ensures Printable(q) <==> exists input :: QueryAt(input) == Done(q, [])
  {
    hide QueryAt, ValidSelects, SelectsOf, PrintableSelects, QueryBytes, Print;
    if Printable(q) { ParserUndoesPrinter(q); }
    if input :| QueryAt(input) == Done(q, []) {
      var t := InputAccepted(input);
      SelectsArePrintable(t.list.items);
    }
  }

  //
  // Layout
  //

  /** White space for white space: some stays some. */
  predicate Wider(a: Bytes, b: Bytes) { AllSpace(b) && (a != [] ==> b != []) }

  predicate NameWider(a: NameText, b: NameText) {
    a.text == b.text && Wider(a.space, b.space) && (a.Bare? <==> b.Bare?)
  }

  predicate ArgumentWider(a: Argument, b: Argument) {
    match a
    case Digits(space, text) => b.Digits? && text == b.text && Wider(space, b.space)
    case Named(name) => b.Named? && NameWider(name, b.name)
  }

  /** A comma is kept, or added. */
  predicate CommaWider(a: Option<Bytes>, b: Option<Bytes>) {
    if a.Some? then b.Some? && Wider(a.value, b.value) else b.Some? ==> AllSpace(b.value)
  }

  predicate FilterWider(a: FilterText, b: FilterText) {
    && a.keyword == b.keyword && Wider(a.space, b.space) && Wider(a.colonSpace, b.colonSpace)
    && ArgumentWider(a.argument, b.argument) && CommaWider(a.comma, b.comma)
  }

  predicate FiltersWider(a: seq<FilterText>, b: seq<FilterText>) {
    |a| == |b| && (a != [] ==> FilterWider(a[0], b[0]) && FiltersWider(a[1..], b[1..]))
  }

  predicate SelectWider(a: SelectText, b: SelectText)
    decreases a, 0
  {
    && NameWider(a.name, b.name) && CommaWider(a.comma, b.comma)
    && (a.alias.Some? <==> b.alias.Some?) && (a.filters.Some? <==> b.filters.Some?)
    && (a.subselects.Some? <==> b.subselects.Some?)
    && (a.alias.Some? ==>
          Wider(a.alias.value.space, b.alias.value.space) && NameWider(a.alias.value.name, b.alias.value.name))
    && (a.filters.Some? ==>
          && Wider(a.filters.value.space, b.filters.value.space)
          && FiltersWider(a.filters.value.items, b.filters.value.items)
          && Wider(a.filters.value.closeSpace, b.filters.value.closeSpace))
    && (a.subselects.Some? ==> ListWider(a.subselects.value, b.subselects.value))
  }

  predicate ListWider(a: SelectList, b: SelectList)
    decreases a, 0
  {
    Wider(a.space, b.space) && SelectsWider(a.items, b.items) && Wider(a.closeSpace, b.closeSpace)
  }

  predicate SelectsWider(a: seq<SelectText>, b: seq<SelectText>)
    decreases a, 0
  {
    |a| == |b| && (a != [] ==> SelectWider(a[0], b[0]) && SelectsWider(a[1..], b[1..]))
  }

  /** The same tokens in the same order, with white space or commas added anywhere between them. */
  predicate QueryWider(a: QueryText, b: QueryText) {
    ListWider(a.list, b.list) && Wider(a.endSpace, b.endSpace)
  }

  lemma NameStays(a: NameText, b: NameText)
    requires ValidName(a) && NameWider(a, b)
    ensures ValidName(b)
  {
  }

  lemma FilterStays(a: FilterText, b: FilterText)
    requires ValidFilter(a) && FilterWider(a, b)
    ensures ValidFilter(b) && FilterOf(b) == FilterOf(a) && ValidComma(b.comma)
  {
    hide Decimal;
  }

  lemma {:induction false} FiltersStay(a: seq<FilterText>, b: seq<FilterText>)
    requires ValidFilters(a) && FiltersWider(a, b)
    ensures ValidFilters(b) && FiltersOf(b) == FiltersOf(a)
  {
    hide ValidFilter, FilterOf;
    if a != [] {
      FilterStays(a[0], b[0]);
      FiltersStay(a[1..], b[1..]);
      if b[0].comma.None? && |b| > 1 {
        assert a[1..][0] == a[1] && b[1..][0] == b[1];
        assert FilterWider(a[1], b[1]);
      }
    }
  }

  lemma {:induction false} SelectStays(a: SelectText, b: SelectText)
    requires ValidSelect(a) && SelectWider(a, b)
    ensures ValidSelect(b) && SelectOf(b) == SelectOf(a) && ValidComma(b.comma)
    decreases a, 0
  {
    hide ValidFilters, ValidSelects, FiltersOf, SelectsOf, FiltersWider, SelectsWider, AllSpace, AllWord;
    NameStays(a.name, b.name);
    if a.alias.Some? { NameStays(a.alias.value.name, b.alias.value.name); }
    if a.filters.Some? { FiltersStay(a.filters.value.items, b.filters.value.items); }
    if a.subselects.Some? { SelectsStay(a.subselects.value.items, b.subselects.value.items); }
  }

  lemma {:induction false} SelectsStay(a: seq<SelectText>, b: seq<SelectText>)
    requires ValidSelects(a) && SelectsWider(a, b)
    ensures ValidSelects(b) && SelectsOf(b) == SelectsOf(a)
    decreases a, 0
  {
    hide ValidSelect, SelectOf, AllSpace, ListWider;
    if a != [] {
      SelectStays(a[0], b[0]);
      SelectsStay(a[1..], b[1..]);
      if b[0].comma.None? && |b| > 1 {
        assert a[1..][0] == a[1] && b[1..][0] == b[1];
        assert SelectWider(a[1], b[1]);
      }
    }
  }

  /** Adding white space or commas between the tokens of an accepted input changes nothing. */
  lemma LayoutIndependence(a: QueryText, b: QueryText)
    requires ValidQuery(a) && QueryWider(a, b)
    ensures ValidQuery(b) && QueryAt(QueryBytes(b)) == QueryAt(QueryBytes(a)) == Done(QueryOf(a), [])
  {
    hide ValidSelects, SelectsOf, SelectsWider, QueryAt, QueryBytes;
    SelectsStay(a.list.items, b.list.items);
    TextParses(a);
    TextParses(b);
  }

  /** The same, from the input: it has a text, and all the wider ones parse to the same query. */
  lemma AnyLayout(input: Bytes) returns (a: QueryText)
    requires QueryAt(input).Done?
    ensures ValidQuery(a) && QueryBytes(a) == input
    ensures forall b :: QueryWider(a, b) ==> QueryAt(QueryBytes(b)) == QueryAt(input)
  {
    hide ValidQuery, QueryAt, QueryBytes, QueryWider, QueryOf;
    a := InputAccepted(input);
    forall b | QueryWider(a, b) ensures QueryAt(QueryBytes(b)) == QueryAt(input) {
      LayoutIndependence(a, b);
    }
  }
}
