/** A query that uses everything there is, byte by byte. */
module QueryExamples {
  import opened ByteStrings
  import opened QueryTexts
  import opened QueryParsers
  import opened QueryReading
  import opened QueryFaults

  lemma Characters(b: Byte)
    ensures IsSpace(b) <==> b in {9, 10, 12, 13, 32}
    ensures IsWord(b) <==> 48 <= b <= 57 || 65 <= b <= 90 || b == 95 || 97 <= b <= 122
    ensures IsLetter(b) <==> IsWord(b) && b > 57
  {
  }

  /** `skip: 5, take: 10, after: "x y", before: b`, with as little white space as can be. */
  const FILTERS: seq<FilterText> := [
    FilterText([], SkipWord, [], Digits([], [53]), Some([])),
    FilterText([], TakeWord, [], Digits([], [49, 48]), Some([])),
    FilterText([], AfterWord, [], Named(Quoted([], [120, 32, 121])), Some([])),
    FilterText([], BeforeWord, [], Named(Bare([], [98])), None)]

  const FILTER_BYTES: Bytes :=
    [115, 107, 105, 112, 58, 53] + [44]
    + ([116, 97, 107, 101, 58, 49, 48] + [44]
       + ([97, 102, 116, 101, 114, 58, 34, 120, 32, 121, 34] + [44]
          + ([98, 101, 102, 111, 114, 101, 58, 98] + [] + [])))

  lemma FilterThen(f: FilterText, rest: seq<FilterText>)
    requires ValidFilter(f) && ValidFilters(rest) && (f.comma == Some([]) || (f.comma == None && rest == []))
    ensures ValidFilters([f] + rest)
    ensures FiltersBytes([f] + rest) == FilterBytes(f) + (if f.comma.Some? then [44] else []) + FiltersBytes(rest)
    ensures FiltersOf([f] + rest) == [FilterOf(f)] + FiltersOf(rest)
  {
    hide FilterBytes, ValidFilter, FilterOf;
    assert ([f] + rest)[1..] == rest;
    assert [] + [COMMA] == [44];
    assert ([f] + rest)[0] == f;
  }

  lemma FiltersAre()
    ensures FiltersBytes(FILTERS) == FILTER_BYTES && ValidFilters(FILTERS)
    ensures FiltersOf(FILTERS) == [Skip(5), Take(10), After([120, 32, 121]), Before([98])]
  {
    FilterAre();
    Commas();
    NoFilters();
    hide FilterBytes, ValidFilter, FilterOf, FiltersBytes, ValidFilters, FiltersOf, FILTERS;
    var a, b, c, d := FILTERS[0], FILTERS[1], FILTERS[2], FILTERS[3];
    FilterThen(d, []);
    FilterThen(c, [d] + []);
    FilterThen(b, [c] + ([d] + []));
    FilterThen(a, [b] + ([c] + ([d] + [])));
  }

  lemma Commas()
    ensures |FILTERS| == 4
    ensures FILTERS == [FILTERS[0]] + ([FILTERS[1]] + ([FILTERS[2]] + ([FILTERS[3]] + [])))
    ensures FILTERS[0].comma == FILTERS[1].comma == FILTERS[2].comma == Some([]) && FILTERS[3].comma == None
  {
  }

  lemma NoFilters()
    ensures ValidFilters([]) && FiltersBytes([]) == [] && FiltersOf([]) == []
  {
  }

  lemma Decimals()
    ensures AllDigits([53]) && AllDigits([49, 48]) && Decimal([53]) == 5 && Decimal([49, 48]) == 10
  {
    assert [53][..0] == [] && [49, 48][..1] == [49] && [49][..0] == [];
    assert Decimal([49]) == 1;
  }

  lemma FilterAre()
    ensures FilterBytes(FILTERS[0]) == [115, 107, 105, 112, 58, 53] && ValidFilter(FILTERS[0])
    ensures FilterBytes(FILTERS[1]) == [116, 97, 107, 101, 58, 49, 48] && ValidFilter(FILTERS[1])
    ensures FilterBytes(FILTERS[2]) == [97, 102, 116, 101, 114, 58, 34, 120, 32, 121, 34] && ValidFilter(FILTERS[2])
    ensures FilterBytes(FILTERS[3]) == [98, 101, 102, 111, 114, 101, 58, 98] && ValidFilter(FILTERS[3])
    ensures FilterOf(FILTERS[0]) == Skip(5) && FilterOf(FILTERS[1]) == Take(10)
    ensures FilterOf(FILTERS[2]) == After([120, 32, 121]) && FilterOf(FILTERS[3]) == Before([98])
  {
    Decimals();
    hide Decimal;
  }

  /** A select of the name "a1" under the alias "_b", with those filters; and "c" with a subselect "d". */
  const FIRST: SelectText :=
    SelectText(Bare([], [97, 49]), Some(AliasText([32], Bare([32], [95, 98]))), Some(FilterList([], FILTERS, [])), None,
               Some([]))

  const INNER: SelectText := SelectText(Bare([], [100]), None, None, None, None)

  const SECOND: SelectText := SelectText(Bare([], [99]), None, None, Some(SelectList([], [INNER], [])), None)

  const TEXT: QueryText := QueryText(SelectList([9, 10, 12, 13, 32], [FIRST, SECOND], []), [])

  lemma FirstIs()
    ensures ValidSelect(FIRST)
    ensures SelectBytes(FIRST) == [97, 49, 32, 97, 115, 32, 95, 98, 40] + FILTER_BYTES + [41]
    ensures
      SelectOf(FIRST) ==
      Select([97, 49], Some([95, 98]), [Skip(5), Take(10), After([120, 32, 121]), Before([98])], [])
  {
    FiltersAre();
    FirstParts();
    hide FiltersBytes, ValidFilters, FiltersOf, NameBytes, AliasBytes, FilterListBytes, ValidName, ValidAlias;
    FirstJoined(FILTER_BYTES);
  }

  lemma FirstJoined(f: Bytes)
    ensures [97, 49] + [32, 97, 115, 32, 95, 98] + ([40] + f + [41]) + []
            == [97, 49, 32, 97, 115, 32, 95, 98, 40] + f + [41]
  {
  }

  lemma FirstParts()
    ensures NameBytes(FIRST.name) == [97, 49] && ValidName(FIRST.name)
    ensures AliasBytes(FIRST.alias) == [32, 97, 115, 32, 95, 98] && ValidAlias(FIRST.name, FIRST.alias.value)
    ensures FilterListBytes(FIRST.filters) == [40] + FILTER_BYTES + [41]
  {
    FiltersAre();
    hide FiltersBytes, ValidFilters, FiltersOf;
    hide FILTER_BYTES;
  }

  lemma SelectThen(x: SelectText, rest: seq<SelectText>)
    requires ValidSelect(x) && ValidSelects(rest) && (x.comma == Some([]) || (x.comma == None && rest == []))
    ensures ValidSelects([x] + rest)
    ensures SelectsBytes([x] + rest) == SelectBytes(x) + (if x.comma.Some? then [44] else []) + SelectsBytes(rest)
    ensures SelectsOf([x] + rest) == [SelectOf(x)] + SelectsOf(rest)
  {
    hide SelectBytes, ValidSelect, SelectOf;
    assert ([x] + rest)[1..] == rest;
    assert [] + [COMMA] == [44];
  }

  lemma NoSelects()
    ensures ValidSelects([]) && SelectsBytes([]) == [] && SelectsOf([]) == []
  {
  }

  lemma SecondIs()
    ensures ValidSelect(SECOND) && SelectBytes(SECOND) == [99, 123, 100, 125]
    ensures SelectOf(SECOND) == Select([99], None, [], [Select([100], None, [], [])])
  {
    assert ValidSelect(INNER) && SelectBytes(INNER) == [100] && SelectOf(INNER) == Select([100], None, [], []);
    NoSelects();
    SelectThen(INNER, []);
    hide SelectsBytes, ValidSelects, SelectsOf;
    var l := SECOND.subselects.value;
    assert [INNER] + [] == [INNER];
    assert SelectListBytes(l) == [123, 100, 125];
    assert ListOf(l) == [Select([100], None, [], [])];
    assert NameBytes(SECOND.name) == [99];
  }

  lemma Joined(f: Bytes)
    ensures
      [9, 10, 12, 13, 32] + [123]
      + (([97, 49, 32, 97, 115, 32, 95, 98, 40] + f + [41]) + [44] + ([99, 123, 100, 125] + [] + [])) + [] + [125]
      == [9, 10, 12, 13, 32, 123, 97, 49, 32, 97, 115, 32, 95, 98, 40] + f + [41, 44, 99, 123, 100, 125, 125]
  {
  }

  lemma ListIs()
    ensures
      SelectsBytes(TEXT.list.items)
      == ([97, 49, 32, 97, 115, 32, 95, 98, 40] + FILTER_BYTES + [41]) + [44] + ([99, 123, 100, 125] + [] + [])
    ensures ValidSelects(TEXT.list.items)
    ensures SelectsOf(TEXT.list.items) ==
            [Select([97, 49], Some([95, 98]), [Skip(5), Take(10), After([120, 32, 121]), Before([98])], []),
             Select([99], None, [], [Select([100], None, [], [])])]
  {
    FirstIs();
    SecondIs();
    NoSelects();
    SelectThen(SECOND, []);
    SelectThen(FIRST, [SECOND] + []);
    hide SelectBytes, ValidSelect, SelectOf, SelectsBytes, ValidSelects, SelectsOf;
    assert [FIRST] + ([SECOND] + []) == TEXT.list.items;
  }

  lemma TextIs()
    ensures ValidQuery(TEXT)
    ensures QueryBytes(TEXT) == SelectListBytes(TEXT.list)
    ensures SelectListBytes(TEXT.list) == [9, 10, 12, 13, 32] + [123] + SelectsBytes(TEXT.list.items) + [] + [125]
    ensures QueryOf(TEXT) == Query(SelectsOf(TEXT.list.items))
  {
    ListIs();
    hide SelectsBytes, ValidSelects, SelectsOf;
    var b := SelectListBytes(TEXT.list);
    assert b + [] == b;
  }

  /** The text of a query that uses everything there is, and what it parses to. */
  lemma QueryIs()
    ensures
      QueryAt([9, 10, 12, 13, 32, 123, 97, 49, 32, 97, 115, 32, 95, 98, 40] + FILTER_BYTES
                           + [41, 44, 99, 123, 100, 125, 125])
      == Done(
        Query([Select([97, 49], Some([95, 98]), [Skip(5), Take(10), After([120, 32, 121]), Before([98])], []),
               Select([99], None, [], [Select([100], None, [], [])])]), [])
  {
    hide *;
    ListIs();
    TextIs();
    Joined(FILTER_BYTES);
    TextParses(TEXT);
  }


  //
  // A number that is too great
  //

  lemma GreatNumber(digits: Bytes, rest: Bytes)
    requires digits != [] && AllDigits(digits) && Decimal(digits) >= USIZE_LIMIT && !StartsDigit(rest)
    ensures NumberAt(digits + rest) == Failed(TooGreat(|digits + rest|))
  {
    var t := digits + rest;
    DigitRun(digits, rest);
    Cut(digits, rest);
    NoSpaceBefore(t);
    hide Decimal, SpaceLength, DigitLength;
  }

  lemma GreatFilter(digits: Bytes, rest: Bytes)
    requires digits != [] && AllDigits(digits) && Decimal(digits) >= USIZE_LIMIT && !StartsDigit(rest)
    ensures FiltersAt(SKIP + ([58] + (digits + rest))) == Failed(TooGreat(|digits + rest|))
  {
    var u := [58] + (digits + rest);
    var t := SKIP + u;
    GreatNumber(digits, rest);
    NoSpaceBefore(t);
    LetterRun(SKIP, u);
    Cut(SKIP, u);
    Cut([58], digits + rest);
    NoSpaceBefore(u);
    ByteFirst(58, digits + rest);
    hide SkipSpace, LetterLength, NumberAt, NameAt, ExpectAt, FilterAt, FiltersAt;
    assert FilterAt(t) == Failed(TooGreat(|digits + rest|)) by { FilterIs(t); }
    FiltersStep(t);
    LetterIsNoEnd(t);
  }

  lemma LetterIsNoEnd(t: Bytes)
    requires t != [] && t[0] == 115 && SkipSpace(t) == t
    ensures !AtEnd(t, CLOSE_PAREN)
  {
  }

  lemma FaultInFilters(l: Bytes, f: Bytes, fault: Fault)
    requires l == [40] + f && FiltersAt(f) == Failed(fault)
    ensures SelectsAt([97] + l) == Failed(fault)
  {
    var s := [97] + l;
    ByteFirst(40, f);
    BareParses([97], l) by { NotAlias(l); }
    NotAlias(l);
    NoSpaceBefore(s);
    NameIsNoEnd(s);
    hide *;
    FilterListIs(l);
    FaultInList(fault);
    HeadIs(s);
    TailFault([97], l, fault);
    SelectIs(s);
    SelectsStep(s);
  }

  lemma FaultInList(fault: Fault)
    ensures Closing<seq<Filter>>(Failed(fault), CLOSE_PAREN) == Failed(fault)
  {
  }

  lemma TailFault(name: Bytes, l: Bytes, fault: Fault)
    requires AliasAt(l) == Done(None, l) && FilterListAt(l) == Failed(fault)
    ensures HeadTail(name, l) == Failed(fault)
  {
    hide AliasAt, FilterListAt;
  }

  lemma FaultInSelects(s: Bytes, fault: Fault)
    requires SelectsAt(s) == Failed(fault)
    ensures QueryAt([123] + s) == Failed(fault)
  {
    hide SelectsAt, SkipSpace, ExpectAt;
    ByteFirst(123, s);
  }

  /** It is reported as a question mark at its first digit: `{a(skip:` has eight bytes. */
  lemma GreatNumberReported(digits: Bytes, rest: Bytes)
    requires digits != [] && AllDigits(digits) && Decimal(digits) >= USIZE_LIMIT && !StartsDigit(rest)
    ensures Outcome([123] + ([97] + ([40] + (SKIP + ([58] + (digits + rest)))))) == Err(UnexpectedChar(63, 8))
  {
    var f := SKIP + ([58] + (digits + rest));
    var l := [40] + f;
    GreatFilter(digits, rest);
    FaultInFilters(l, f, TooGreat(|digits + rest|));
    FaultInSelects([97] + l, TooGreat(|digits + rest|));
    hide QueryAt, SelectsAt, FiltersAt, Decimal;
    assert |[123] + ([97] + l)| - |digits + rest| == 8;
  }

  lemma ByteFirst(b: Byte, r: Bytes)
    requires !IsSpace(b)
    ensures ExpectAt([b] + r, b) == Done((), r) && NextIs([b] + r, b) && AfterByte([b] + r, b) == r
  {
    assert [] + [b] + r == [b] + r;
    ByteAfter([], b, r);
  }

  lemma NotAlias(l: Bytes)
    requires l != [] && l[0] == 40
    ensures AliasAt(l) == Done(None, l) && !StartsWord(l)
  {
    NoSpaceBefore(l);
    hide SpaceLength;
  }

  lemma NameIsNoEnd(s: Bytes)
    requires s != [] && s[0] == 97 && SkipSpace(s) == s
    ensures !AtEnd(s, CLOSE_BRACE)
  {
  }
}
