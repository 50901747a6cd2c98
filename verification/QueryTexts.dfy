/**
  * Queries (src/query/mod.rs) and their texts: a tree of tokens, each with the white space before it. The
  * parser is specified against these trees.
  */
module QueryTexts {
  import opened ByteStrings

  //
  // Queries
  //

  datatype Filter = Skip(count: nat) | Take(count: nat) | After(cursor: Bytes) | Before(cursor: Bytes)

  /** A name is the field of a `Segment`; the parser makes no other segments. */
  datatype Select = Select(name: Bytes, alias: Option<Bytes>, filters: seq<Filter>, subselects: seq<Select>)

  datatype Query = Query(selects: seq<Select>)

  //
  // Characters
  //

  const QUOTE: Byte := 34
  const OPEN_PAREN: Byte := 40
  const CLOSE_PAREN: Byte := 41
  const COMMA: Byte := 44
  const COLON: Byte := 58
  const OPEN_BRACE: Byte := 123
  const CLOSE_BRACE: Byte := 125
  const UNDERSCORE: Byte := 95

  /** "as", "skip", "take", "after", "before" */
  const AS: Bytes := [97, 115]
  const SKIP: Bytes := [115, 107, 105, 112]
  const TAKE: Bytes := [116, 97, 107, 101]
  const AFTER: Bytes := [97, 102, 116, 101, 114]
  const BEFORE: Bytes := [98, 101, 102, 111, 114, 101]

  /** `is_ascii_whitespace`: space, tab, line feed, form feed, carriage return. */
  predicate IsSpace(b: Byte) { b == 32 || b == 9 || b == 10 || b == 12 || b == 13 }

  predicate IsDigit(b: Byte) { 48 <= b <= 57 }

  predicate IsAlphabetic(b: Byte) { 65 <= b <= 90 || 97 <= b <= 122 }

  /** May begin a bare name, or be in the keyword of a filter. */
  predicate IsLetter(b: Byte) { IsAlphabetic(b) || b == UNDERSCORE }

  /** May be in a bare name. */
  predicate IsWord(b: Byte) { IsLetter(b) || IsDigit(b) }

  predicate AllSpace(s: Bytes) { forall i :: 0 <= i < |s| ==> IsSpace(s[i]) }

  predicate AllWord(s: Bytes) { forall i :: 0 <= i < |s| ==> IsWord(s[i]) }

  predicate AllDigits(s: Bytes) { forall i :: 0 <= i < |s| ==> IsDigit(s[i]) }

  predicate StartsWord(s: Bytes) { s != [] && IsWord(s[0]) }

  predicate StartsDigit(s: Bytes) { s != [] && IsDigit(s[0]) }

  /** `usize` has 64 bits. */
  const USIZE_LIMIT: nat := 0x1_0000_0000_0000_0000

  function Decimal(digits: Bytes): nat
    requires AllDigits(digits)
  {
    if digits == [] then 0 else 10 * Decimal(digits[..|digits| - 1]) + (digits[|digits| - 1] - 48)
  }

  //
  // Texts
  //

  datatype NameText = Quoted(space: Bytes, text: Bytes) | Bare(space: Bytes, text: Bytes)

  datatype Argument = Digits(space: Bytes, text: Bytes) | Named(name: NameText)

  datatype Keyword = SkipWord | TakeWord | AfterWord | BeforeWord

  /** `comma` is the white space before the comma after the filter, when there is a comma; so for selects. */
  datatype FilterText =
    FilterText(space: Bytes, keyword: Keyword, colonSpace: Bytes, argument: Argument, comma: Option<Bytes>)

  datatype AliasText = AliasText(space: Bytes, name: NameText)

  datatype FilterList = FilterList(space: Bytes, items: seq<FilterText>, closeSpace: Bytes)

  datatype SelectText =
    SelectText(name: NameText, alias: Option<AliasText>, filters: Option<FilterList>, subselects: Option<SelectList>,
               comma: Option<Bytes>)

  datatype SelectList = SelectList(space: Bytes, items: seq<SelectText>, closeSpace: Bytes)

  datatype QueryText = QueryText(list: SelectList, endSpace: Bytes)

  function WordOf(k: Keyword): Bytes {
    match k
    case SkipWord => SKIP
    case TakeWord => TAKE
    case AfterWord => AFTER
    case BeforeWord => BEFORE
  }

  function NameBytes(n: NameText): Bytes {
    match n
    case Quoted(space, text) => space + [QUOTE] + text + [QUOTE]
    case Bare(space, text) => space + text
  }

  function ArgumentBytes(a: Argument): Bytes {
    match a
    case Digits(space, text) => space + text
    case Named(name) => NameBytes(name)
  }

  function FilterBytes(f: FilterText): Bytes {
    f.space + WordOf(f.keyword) + f.colonSpace + [COLON] + ArgumentBytes(f.argument)
  }

  function CommaBytes(comma: Option<Bytes>): Bytes {
    if comma.Some? then comma.value + [COMMA] else []
  }

  function FiltersBytes(items: seq<FilterText>): Bytes {
    if items == [] then [] else FilterBytes(items[0]) + CommaBytes(items[0].comma) + FiltersBytes(items[1..])
  }

  function FilterListBytes(fs: Option<FilterList>): Bytes {
    if fs.None? then []
    else fs.value.space + [OPEN_PAREN] + FiltersBytes(fs.value.items) + fs.value.closeSpace + [CLOSE_PAREN]
  }

  function AliasBytes(a: Option<AliasText>): Bytes {
    if a.None? then [] else a.value.space + AS + NameBytes(a.value.name)
  }

  function SelectBytes(s: SelectText): Bytes
    decreases s, 0
  {
    NameBytes(s.name) + AliasBytes(s.alias) + FilterListBytes(s.filters) + SubselectBytes(s.subselects)
  }

  function SubselectBytes(ss: Option<SelectList>): Bytes
    decreases ss, 0
  {
    if ss.None? then [] else SelectListBytes(ss.value)
  }

  function SelectListBytes(l: SelectList): Bytes
    decreases l, 0
  {
    l.space + [OPEN_BRACE] + SelectsBytes(l.items) + l.closeSpace + [CLOSE_BRACE]
  }

  function SelectsBytes(items: seq<SelectText>): Bytes
    decreases items, 0
  {
    if items == [] then [] else SelectBytes(items[0]) + CommaBytes(items[0].comma) + SelectsBytes(items[1..])
  }

  function QueryBytes(q: QueryText): Bytes {
    SelectListBytes(q.list) + q.endSpace
  }

  //
  // Meaning
  //

  function FilterOf(f: FilterText): Filter
    requires ValidFilter(f)
  {
    match f.keyword
    case SkipWord => Skip(Decimal(f.argument.text))
    case TakeWord => Take(Decimal(f.argument.text))
    case AfterWord => After(f.argument.name.text)
    case BeforeWord => Before(f.argument.name.text)
  }

  function FiltersOf(items: seq<FilterText>): seq<Filter>
    requires ValidFilters(items)
  {
    if items == [] then [] else [FilterOf(items[0])] + FiltersOf(items[1..])
  }

  function SelectOf(s: SelectText): Select
    requires ValidSelect(s)
    decreases s, 0
  {
    Select(s.name.text, if s.alias.Some? then Some(s.alias.value.name.text) else None,
           if s.filters.Some? then FiltersOf(s.filters.value.items) else [],
           if s.subselects.Some? then ListOf(s.subselects.value) else [])
  }

  function ListOf(l: SelectList): seq<Select>
    requires ValidList(l)
    decreases l, 0
  {
    SelectsOf(l.items)
  }

  function SelectsOf(items: seq<SelectText>): seq<Select>
    requires ValidSelects(items)
    decreases items, 0
  {
    if items == [] then [] else [SelectOf(items[0])] + SelectsOf(items[1..])
  }

  function QueryOf(q: QueryText): Query
    requires ValidQuery(q)
  {
    Query(ListOf(q.list))
  }

  //
  // Well-formed texts
  //

  predicate ValidName(n: NameText) {
    && AllSpace(n.space)
    && match n
       case Quoted(_, text) => QUOTE !in text
       case Bare(_, text) => text != [] && IsLetter(text[0]) && AllWord(text)
  }

  predicate ValidArgument(a: Argument) {
    match a
    case Digits(space, text) => AllSpace(space) && text != [] && AllDigits(text) && Decimal(text) < USIZE_LIMIT
    case Named(name) => ValidName(name)
  }

  predicate ValidFilter(f: FilterText) {
    && AllSpace(f.space) && AllSpace(f.colonSpace) && ValidArgument(f.argument)
    && (f.argument.Digits? <==> f.keyword.SkipWord? || f.keyword.TakeWord?)
  }

  predicate ValidComma(comma: Option<Bytes>) {
    comma.Some? ==> AllSpace(comma.value)
  }

  /** A bare word needs white space before another word. */
  predicate FilterApart(f: FilterText, next: FilterText) {
    f.argument.Named? && f.argument.name.Bare? ==> next.space != []
  }

  predicate ValidFilters(items: seq<FilterText>) {
    items != [] ==>
      && ValidFilter(items[0]) && ValidComma(items[0].comma) && ValidFilters(items[1..])
      && (items[0].comma.None? && |items| > 1 ==> FilterApart(items[0], items[1]))
  }

  predicate ValidAlias(name: NameText, a: AliasText) {
    && AllSpace(a.space) && ValidName(a.name)
    && (name.Bare? ==> a.space != [])
    && (a.name.Bare? ==> a.name.space != [])
  }

  /** Nothing follows the last name of the select. */
  predicate EndsInName(s: SelectText) { s.filters.None? && s.subselects.None? }

  function LastName(s: SelectText): NameText {
    if s.alias.Some? then s.alias.value.name else s.name
  }

  /**
    * Selects without a comma between them: bare words need white space, and a select with no more than a name
    * must not be followed by one called `as`, which would be read as its alias.
    */
  predicate SelectApart(s: SelectText, next: SelectText) {
    EndsInName(s) ==>
      && (LastName(s).Bare? && next.name.Bare? ==> next.name.space != [])
      && (s.alias.None? && next.name.Bare? ==> next.name.text != AS)
  }

  predicate ValidSelect(s: SelectText)
    decreases s, 0
  {
    && ValidName(s.name)
    && (s.alias.Some? ==> ValidAlias(s.name, s.alias.value))
    && (s.filters.Some? ==>
          && AllSpace(s.filters.value.space) && AllSpace(s.filters.value.closeSpace)
          && ValidFilters(s.filters.value.items))
    && (s.subselects.Some? ==> ValidList(s.subselects.value))
  }

  predicate ValidList(l: SelectList)
    decreases l, 0
  {
    AllSpace(l.space) && AllSpace(l.closeSpace) && ValidSelects(l.items)
  }

  predicate ValidSelects(items: seq<SelectText>)
    decreases items, 0
  {
    items != [] ==>
      && ValidSelect(items[0]) && ValidComma(items[0].comma) && ValidSelects(items[1..])
      && (items[0].comma.None? && |items| > 1 ==> SelectApart(items[0], items[1]))
  }

  predicate ValidQuery(q: QueryText) {
    ValidList(q.list) && AllSpace(q.endSpace)
  }
}
