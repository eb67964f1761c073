/** Country restrictions of catalogue entries (metadata/src/lib.rs) and the string chunks they are read in. */
module Restrictions {
  import opened Bytes
  import opened Wrappers

  /** A string is its UTF-8 bytes; cutting it inside a character panics. */
  type text = seq<byte>

  predicate Continuation(b: byte) {
    0x80 <= b < 0xC0
  }

  predicate CanCut(s: text, at: nat) {
    at <= |s| && (at == |s| || !Continuation(s[at]))
  }

  predicate Ascii(s: text) {
    forall i :: 0 <= i < |s| ==> s[i] < 0x80
  }

  /** `StrChunks` (core/src/util/mod.rs): the next chunk panics when a whole one cannot be cut off. */
  class StrChunks {
    var rest: text
    const size: nat

    constructor (data: text, size: nat)
      ensures rest == data && this.size == size
    {
      rest, this.size := data, size;
    }

    method Next() returns (chunk: Option<text>)
      requires rest == [] || CanCut(rest, size)
      modifies this
      ensures old(rest) == [] ==> chunk == None && rest == []
      ensures old(rest) != [] ==> chunk == Some(old(rest)[..size]) && rest == old(rest)[size..]
    {
      if |rest| == 0 {
        return None;
      }
      chunk := Some(rest[..size]);
      rest := rest[size..];
    }
  }

  // ----- looking a country up in a list

  function Code(list: text, k: nat): text
    requires 2 * k + 2 <= |list|
  {
    list[2 * k..2 * k + 2]
  }

  /** The country is one of the two-byte codes of the list. */
  ghost predicate Lists(list: text, country: text) {
    exists k: nat :: 2 * k + 2 <= |list| && Code(list, k) == country
  }

  /** What `any` over the chunks returns; `None` where a chunk cannot be cut before a match is found. */
  function Search(list: text, country: text): Option<bool> {
    if list == [] then Some(false)
    else if !CanCut(list, 2) then None
    else if list[..2] == country then Some(true)
    else Search(list[2..], country)
  }

  method CountrylistContains(list: text, country: text) returns (found: Option<bool>)
    ensures found == Search(list, country)
  {
    var chunks := new StrChunks(list, 2);
    while true
      invariant chunks.size == 2 && Search(chunks.rest, country) == Search(list, country)
      decreases |chunks.rest|
    {
      if chunks.rest != [] && !CanCut(chunks.rest, 2) {
        return None;
      }
      var chunk := chunks.Next();
      match chunk {
        case None => return Some(false);
        case Some(cc) =>
          if cc == country {
            return Some(true);
          }
      }
    }
  }

  lemma CodeShift(list: text, k: nat)
    requires 2 * k + 4 <= |list|
    ensures Code(list[2..], k) == Code(list, k + 1)
  {
    var at := 2 * k;
    assert list[2..][at..at + 2] == list[at + 2..at + 4];
  }

  lemma ListsFirst(list: text, country: text)
    requires |list| >= 2
    ensures Lists(list, country) <==> list[..2] == country || Lists(list[2..], country)
  {
    if Lists(list, country) {
      var k: nat :| 2 * k + 2 <= |list| && Code(list, k) == country;
      if k > 0 {
        CodeShift(list, k - 1);
      }
    }
    if list[..2] == country {
      assert Code(list, 0) == country;
    }
    if Lists(list[2..], country) {
      var k: nat :| 2 * k + 2 <= |list[2..]| && Code(list[2..], k) == country;
      CodeShift(list, k);
    }
  }

  /** Chunk k, the last one included, ends where the list can be cut. */
  predicate CutAfter(list: text, k: nat) {
    CanCut(list, 2 * k + 2)
  }

  /** Code k is the country, and the chunks up to and including it can all be cut. */
  ghost predicate Reaches(list: text, k: nat, country: text) {
    && 2 * k + 2 <= |list| && Code(list, k) == country
    && forall j :: 0 <= j <= k ==> CutAfter(list, j)
  }

  ghost predicate Found(list: text, country: text) {
    exists k: nat :: Reaches(list, k, country)
  }

  ghost predicate AllCut(list: text) {
    |list| % 2 == 0 && forall j: nat :: 2 * j + 2 <= |list| ==> CutAfter(list, j)
  }

  lemma CutShift(list: text, j: nat)
    requires |list| >= 2
    ensures CutAfter(list[2..], j) <==> CutAfter(list, j + 1)
  {
  }

  lemma ReachesNext(list: text, k: nat, country: text)
    requires CanCut(list, 2)
    ensures Reaches(list, k + 1, country) <==> Reaches(list[2..], k, country)
  {
    if Reaches(list[2..], k, country) {
      CodeShift(list, k);
      forall j | 0 <= j <= k + 1 ensures CutAfter(list, j) {
        if j > 0 {
          CutShift(list, j - 1);
        }
      }
    }
    if Reaches(list, k + 1, country) {
      CodeShift(list, k);
      forall j | 0 <= j <= k ensures CutAfter(list[2..], j) {
        CutShift(list, j);
      }
    }
  }

  lemma FoundFirst(list: text, country: text)
    ensures Found(list, country) <==> CanCut(list, 2) && (list[..2] == country || Found(list[2..], country))
  {
    if Found(list, country) {
      var k: nat :| Reaches(list, k, country);
      assert CutAfter(list, 0);
      if k > 0 {
        ReachesNext(list, k - 1, country);
      }
    }
    if CanCut(list, 2) && list[..2] == country {
      assert Reaches(list, 0, country);
    } else if CanCut(list, 2) && Found(list[2..], country) {
      var k: nat :| Reaches(list[2..], k, country);
      ReachesNext(list, k, country);
    }
  }

  lemma AllCutFirst(list: text)
    requires list != []
    ensures AllCut(list) <==> CanCut(list, 2) && AllCut(list[2..])
  {
    if AllCut(list) {
      assert CutAfter(list, 0);
      forall j: nat | 2 * j + 2 <= |list[2..]| ensures CutAfter(list[2..], j) {
        CutShift(list, j);
      }
    }
    if CanCut(list, 2) && AllCut(list[2..]) {
      forall j: nat | 2 * j + 2 <= |list| ensures CutAfter(list, j) {
        if j > 0 {
          CutShift(list, j - 1);
        }
      }
    }
  }

  /** For every list: a country is found exactly when it is a code that can be reached, and it is denied exactly when
      the whole list can be cut and lists it nowhere; in every other case the search panics. */
  lemma {:induction false} SearchMeaning(list: text, country: text)
    ensures Search(list, country) == Some(true) <==> Found(list, country)
    ensures Search(list, country) == Some(false) <==> AllCut(list) && !Lists(list, country)
  {
    hide Found;
    hide AllCut;
    hide Lists;
    FoundFirst(list, country);
    if list == [] {
      EmptyList(country);
    } else {
      AllCutFirst(list);
      if CanCut(list, 2) {
        ListsFirst(list, country);
        SearchMeaning(list[2..], country);
      }
    }
  }

  /** The same, of the bytes of the list: a code starts at every even place, and none may start inside a character. */
  lemma SearchExactly(list: text, country: text)
    ensures Search(list, country) == Some(true) <==>
            exists at: nat :: at % 2 == 0 && at + 2 <= |list| && list[at..][..2] == country &&
              forall i :: 0 < i <= at + 2 && i < |list| && i % 2 == 0 ==> !(0x80 <= list[i] < 0xC0)
    ensures Search(list, country) == Some(false) <==>
            && |list| % 2 == 0
            && (forall i :: 0 < i < |list| && i % 2 == 0 ==> !(0x80 <= list[i] < 0xC0))
            && forall at: nat :: at % 2 == 0 && at + 2 <= |list| ==> list[at..][..2] != country
  {
    hide Search;
    SearchMeaning(list, country);
    FoundExactly(list, country);
    ListsExactly(list, country);
    AllCutExactly(list);
  }

  lemma CodeAt(list: text, k: nat)
    requires 2 * k + 2 <= |list|
    ensures Code(list, k) == list[2 * k..][..2]
  {
  }

  lemma ListsExactly(list: text, country: text)
    ensures Lists(list, country) <==>
            exists at: nat :: at % 2 == 0 && at + 2 <= |list| && list[at..][..2] == country
  {
    if Lists(list, country) {
      var k: nat :| 2 * k + 2 <= |list| && Code(list, k) == country;
      CodeAt(list, k);
      var at: nat := 2 * k;
      assert list[at..][..2] == country;
    }
    if exists at: nat :: at % 2 == 0 && at + 2 <= |list| && list[at..][..2] == country {
      var at: nat :| at % 2 == 0 && at + 2 <= |list| && list[at..][..2] == country;
      CodeAt(list, at / 2);
    }
  }

  /** Where the chunks before a place can all be cut. */
  ghost predicate CutUpTo(list: text, end: nat) {
    forall i :: 0 < i <= end && i < |list| && i % 2 == 0 ==> !(0x80 <= list[i] < 0xC0)
  }

  lemma CutsExactly(list: text, k: nat)
    requires 2 * k + 2 <= |list|
    ensures (forall j :: 0 <= j <= k ==> CutAfter(list, j)) <==> CutUpTo(list, 2 * k + 2)
  {
    if forall j :: 0 <= j <= k ==> CutAfter(list, j) {
      forall i | 0 < i <= 2 * k + 2 && i < |list| && i % 2 == 0 ensures !(0x80 <= list[i] < 0xC0) {
        assert CutAfter(list, i / 2 - 1);
      }
    }
    if CutUpTo(list, 2 * k + 2) {
      forall j | 0 <= j <= k ensures CutAfter(list, j) {
        assert 2 * j + 2 < |list| ==> !(0x80 <= list[2 * j + 2] < 0xC0);
      }
    }
  }

  lemma ReachesExactly(list: text, k: nat, country: text)
    requires 2 * k + 2 <= |list|
    ensures Reaches(list, k, country) <==> list[2 * k..][..2] == country && CutUpTo(list, 2 * k + 2)
  {
    hide CutUpTo;
    hide CutAfter;
    CodeAt(list, k);
    CutsExactly(list, k);
  }

  lemma FoundExactly(list: text, country: text)
    ensures Found(list, country) <==>
            exists at: nat :: at % 2 == 0 && at + 2 <= |list| && list[at..][..2] == country &&
              forall i :: 0 < i <= at + 2 && i < |list| && i % 2 == 0 ==> !(0x80 <= list[i] < 0xC0)
  {
    if Found(list, country) {
      var k: nat :| Reaches(list, k, country);
      ReachesExactly(list, k, country);
      hide Reaches;
      var at: nat := 2 * k;
      assert at % 2 == 0 && list[at..][..2] == country && CutUpTo(list, at + 2);
    }
    FoundAt(list, country);
  }

  lemma FoundAt(list: text, country: text)
    ensures forall at: nat :: at % 2 == 0 && at + 2 <= |list| && list[at..][..2] == country && CutUpTo(list, at + 2)
              ==> Found(list, country)
  {
    hide CutUpTo;
    forall at: nat | at % 2 == 0 && at + 2 <= |list| && list[at..][..2] == country && CutUpTo(list, at + 2)
      ensures Found(list, country)
    {
      var k := at / 2;
      assert at == 2 * k;
      ReachesExactly(list, k, country);
      hide Reaches;
    }
  }

  lemma AllCutExactly(list: text)
    ensures AllCut(list) <==>
            |list| % 2 == 0 && forall i :: 0 < i < |list| && i % 2 == 0 ==> !(0x80 <= list[i] < 0xC0)
  {
    if AllCut(list) {
      forall i | 0 < i < |list| && i % 2 == 0 ensures !(0x80 <= list[i] < 0xC0) {
        assert CutAfter(list, i / 2 - 1);
      }
    }
  }

  lemma EmptyList(country: text)
    ensures AllCut([]) && !Lists([], country)
  {
  }

  /** For ASCII lists only a dangling half code, reached without a match, panics. */
  lemma {:induction false} AsciiSearch(list: text, country: text)
    requires Ascii(list)
    ensures Search(list, country) ==
            if Lists(list, country) then Some(true) else if |list| % 2 == 0 then Some(false) else None
  {
    if |list| < 2 {
    } else {
      ListsFirst(list, country);
      AsciiSearch(list[2..], country);
    }
  }

  // ----- concatenated lists

  lemma {:induction false} ListsAppend(a: text, b: text, country: text)
    requires |a| % 2 == 0
    ensures Lists(a + b, country) <==> Lists(a, country) || Lists(b, country)
    decreases |a|
  {
    if a == [] {
      assert a + b == b;
    } else {
      assert (a + b)[2..] == a[2..] + b && (a + b)[..2] == a[..2];
      ListsFirst(a, country);
      ListsFirst(a + b, country);
      ListsAppend(a[2..], b, country);
    }
  }

  /** After a dangling half code the codes of the next list are read one byte off. */
  lemma {:induction false} ListsAppendHalf(a: text, b: text, country: text)
    requires |a| % 2 == 1
    ensures Lists(a + b, country) <==>
            Lists(a, country) || (b != [] && ([a[|a| - 1], b[0]] == country || Lists(b[1..], country)))
    decreases |a|
  {
    if |a| == 1 {
      if b != [] {
        assert (a + b)[..2] == [a[0], b[0]] && (a + b)[2..] == b[1..];
        ListsFirst(a + b, country);
      }
    } else {
      assert (a + b)[2..] == a[2..] + b && (a + b)[..2] == a[..2];
      ListsFirst(a, country);
      ListsFirst(a + b, country);
      ListsAppendHalf(a[2..], b, country);
    }
  }

  /** Whatever list follows, a country is found in both together exactly if it is in one of them: this holds if and
      only if the first list is made of whole codes or names the country itself. */
  lemma AppendAgreesExactly(a: text, country: text)
    requires |country| == 2
    ensures (forall b: text :: Lists(a + b, country) <==> Lists(a, country) || Lists(b, country))
            <==> |a| % 2 == 0 || Lists(a, country)
  {
    if |a| % 2 == 0 {
      forall b: text ensures Lists(a + b, country) <==> Lists(a, country) || Lists(b, country) {
        ListsAppend(a, b, country);
      }
    } else {
      forall b: text ensures Lists(a, country) ==> Lists(a + b, country) {
        ListsAppendHalf(a, b, country);
      }
      if !Lists(a, country) {
        var straddling: text := [country[1]];
        ListsAppendHalf(a, straddling, country);
        ListsAppendHalf(a, country, country);
        assert Code(country, 0) == country;
        assert !Lists(straddling, country) && !Lists(country[1..], country);
      }
    }
  }

  // ----- the decision

  /** A restriction of some catalogues, with the countries it forbids and those it allows. */
  datatype Restriction = Restriction(catalogues: seq<text>, forbidden: Option<text>, allowed: Option<text>)

  /** The lists of forbidden countries, and of allowed ones, in the restrictions of a catalogue. */
  function ForbiddenLists(rs: seq<Restriction>, catalogue: text): seq<text> {
    if rs == [] then []
    else
      var n := |rs| - 1;
      var before := ForbiddenLists(rs[..n], catalogue);
      if catalogue in rs[n].catalogues && rs[n].forbidden.Some? then before + [rs[n].forbidden.value] else before
  }

  function AllowedLists(rs: seq<Restriction>, catalogue: text): seq<text> {
    if rs == [] then []
    else
      var n := |rs| - 1;
      var before := AllowedLists(rs[..n], catalogue);
      if catalogue in rs[n].catalogues && rs[n].allowed.Some? then before + [rs[n].allowed.value] else before
  }

  /** The three conditions of the return value in order, each evaluated only if it is reached. */
  function Decide(forbidden: seq<text>, allowed: seq<text>, country: text): Option<bool> {
    if forbidden == [] && allowed == [] then Some(false)
    else
      var isForbidden := if forbidden == [] then Some(false) else Search(Concat(forbidden), country);
      if isForbidden.None? then None
      else if isForbidden.value then Some(false)
      else if allowed == [] then Some(true)
      else Search(Concat(allowed), country)
  }

  method ParseRestrictions(restrictions: seq<Restriction>, country: text, catalogue: text) returns (available: Option<bool>)
    ensures available == Decide(ForbiddenLists(restrictions, catalogue), AllowedLists(restrictions, catalogue), country)
  {
    hide Search;
    hide Concat;
    var forbidden: text, hasForbidden := [], false;
    var allowed: text, hasAllowed := [], false;
    NothingConcatenated();
    for i := 0 to |restrictions|
      invariant forbidden == Concat(ForbiddenLists(restrictions[..i], catalogue))
      invariant hasForbidden <==> ForbiddenLists(restrictions[..i], catalogue) != []
      invariant allowed == Concat(AllowedLists(restrictions[..i], catalogue))
      invariant hasAllowed <==> AllowedLists(restrictions[..i], catalogue) != []
    {
      var r := restrictions[i];
      assert restrictions[..i + 1][..i] == restrictions[..i];
      if catalogue in r.catalogues {
        if r.forbidden.Some? {
          ConcatSnoc(ForbiddenLists(restrictions[..i], catalogue), r.forbidden.value);
          forbidden := forbidden + r.forbidden.value;
          hasForbidden := true;
        }
        if r.allowed.Some? {
          ConcatSnoc(AllowedLists(restrictions[..i], catalogue), r.allowed.value);
          allowed := allowed + r.allowed.value;
          hasAllowed := true;
        }
      }
    }
    assert restrictions[..|restrictions|] == restrictions;

    if !(hasForbidden || hasAllowed) {
      return Some(false);
    }
    if hasForbidden {
      var isForbidden := CountrylistContains(forbidden, country);
      if isForbidden.None? {
        return None;
      }
      if isForbidden.value {
        return Some(false);
      }
    }
    if hasAllowed {
      available := CountrylistContains(allowed, country);
    } else {
      available := Some(true);
    }
  }

  lemma NothingConcatenated()
    ensures Concat<byte>([]) == []
  {
  }

  lemma ConcatSnoc(lists: seq<text>, last: text)
    ensures Concat(lists + [last]) == Concat(lists) + last
  {
    ConcatAppend(lists, [last]);
    ConcatOne(last);
  }

  // ----- the rule, restriction by restriction

  ghost predicate SomeLists(lists: seq<text>, country: text) {
    exists i :: 0 <= i < |lists| && Lists(lists[i], country)
  }

  /** Some list applies, none forbids the country, and if any allows countries at all, one of them allows this one. */
  ghost predicate Rule(forbidden: seq<text>, allowed: seq<text>, country: text) {
    && (forbidden != [] || allowed != [])
    && !SomeLists(forbidden, country)
    && (allowed != [] ==> SomeLists(allowed, country))
  }

  ghost predicate Whole(lists: seq<text>) {
    forall i :: 0 <= i < |lists| ==> |lists[i]| % 2 == 0
  }

  ghost predicate AllAscii(lists: seq<text>) {
    forall i :: 0 <= i < |lists| ==> Ascii(lists[i])
  }

  lemma {:induction false} ConcatAscii(lists: seq<text>)
    requires AllAscii(lists)
    ensures Ascii(Concat(lists))
  {
    if lists == [] {
    } else {
      assert AllAscii(lists[1..]);
      ConcatAscii(lists[1..]);
      assert Ascii(lists[0]);
    }
  }

  lemma SomeListsFirst(lists: seq<text>, country: text)
    requires lists != []
    ensures SomeLists(lists, country) <==> Lists(lists[0], country) || SomeLists(lists[1..], country)
  {
    hide Lists;
    if SomeLists(lists, country) {
      var i :| 0 <= i < |lists| && Lists(lists[i], country);
      assert i > 0 ==> lists[1..][i - 1] == lists[i];
    }
    if SomeLists(lists[1..], country) {
      var i :| 0 <= i < |lists[1..]| && Lists(lists[1..][i], country);
      assert lists[i + 1] == lists[1..][i];
    }
  }

  lemma {:induction false} WholeConcat(lists: seq<text>, country: text)
    requires Whole(lists)
    ensures |Concat(lists)| % 2 == 0 && (Lists(Concat(lists), country) <==> SomeLists(lists, country))
  {
    if lists == [] {
      EmptyList(country);
    } else {
      hide Lists;
      assert |lists[0]| % 2 == 0;
      WholeConcat(lists[1..], country);
      ListsAppend(lists[0], Concat(lists[1..]), country);
      hide SomeLists;
      SomeListsFirst(lists, country);
    }
  }

  /** A list that can be cut into codes, and that does not begin inside a character, which no string does. */
  ghost predicate WholeCodes(list: text) {
    AllCut(list) && (list != [] ==> !Continuation(list[0]))
  }

  ghost predicate AllWholeCodes(lists: seq<text>) {
    forall i :: 0 <= i < |lists| ==> WholeCodes(lists[i])
  }

  lemma WholeCodesAppend(a: text, b: text)
    requires WholeCodes(a) && WholeCodes(b)
    ensures WholeCodes(a + b)
  {
    forall j: nat | 2 * j + 2 <= |a + b| ensures CutAfter(a + b, j) {
      if 2 * j + 2 < |a| {
        assert CutAfter(a, j);
      } else if 2 * j + 2 > |a| {
        assert CutAfter(b, j - |a| / 2);
      }
    }
  }

  lemma {:induction false} WholeCodesConcat(lists: seq<text>)
    requires AllWholeCodes(lists)
    ensures WholeCodes(Concat(lists))
  {
    hide WholeCodes;
    if lists == [] {
      NoCodes();
    } else {
      WholeCodesConcat(lists[1..]);
      WholeCodesAppend(lists[0], Concat(lists[1..]));
    }
  }

  lemma NoCodes()
    ensures WholeCodes([])
  {
  }

  lemma AsciiWholeCodes(lists: seq<text>)
    requires Whole(lists) && AllAscii(lists)
    ensures AllWholeCodes(lists)
  {
    forall i | 0 <= i < |lists| ensures WholeCodes(lists[i]) {
      assert Ascii(lists[i]) && |lists[i]| % 2 == 0;
    }
  }

  lemma WholeSearch(lists: seq<text>, country: text)
    requires AllWholeCodes(lists)
    ensures Search(Concat(lists), country) == Some(SomeLists(lists, country))
  {
    hide Search;
    hide Lists;
    hide Found;
    WholeCodesConcat(lists);
    SearchMeaning(Concat(lists), country);
    if Lists(Concat(lists), country) {
      FoundIfListed(Concat(lists), country);
    }
    WholeConcat(lists, country);
  }

  lemma FoundIfListed(list: text, country: text)
    requires AllCut(list) && Lists(list, country)
    ensures Found(list, country)
  {
    var k: nat :| 2 * k + 2 <= |list| && Code(list, k) == country;
    assert Reaches(list, k, country);
  }

  /** Lists of whole two-byte codes are decided by the rule. */
  lemma WholeCodesFollowRule(forbidden: seq<text>, allowed: seq<text>, country: text)
    requires AllWholeCodes(forbidden) && AllWholeCodes(allowed)
    ensures Decide(forbidden, allowed, country) == Some(Rule(forbidden, allowed, country))
  {
    hide Search;
    WholeSearch(forbidden, country);
    WholeSearch(allowed, country);
  }

  // ----- exactly when the rule is followed

  /** Lists of the same lengths, with any letters. */
  ghost predicate SameLengths(lists: seq<text>, others: seq<text>) {
    |lists| == |others| && AllAscii(others) && forall i :: 0 <= i < |lists| ==> |lists[i]| == |others[i]|
  }

  /** Every list of these lengths is decided by the rule, for every country. */
  ghost predicate RuleFollowed(forbidden: seq<text>, allowed: seq<text>) {
    forall f: seq<text>, a: seq<text>, country: text ::
      SameLengths(forbidden, f) && SameLengths(allowed, a) ==> Decide(f, a, country) == Some(Rule(f, a, country))
  }

  const A: byte := 0x41
  const B: byte := 0x42
  const BA: text := [B, A]

  function Filler(n: nat): (s: text)
    ensures |s| == n && Ascii(s)
  {
    seq(n, i => A)
  }

  function Fillers(lists: seq<text>): (others: seq<text>)
    ensures |others| == |lists|
  {
    seq(|lists|, i requires 0 <= i < |lists| => Filler(|lists[i]|))
  }

  /** Fillers, except that the first list with a dangling half ends in a different letter. */
  function Marked(lists: seq<text>): (others: seq<text>)
    ensures |others| == |lists|
  {
    if lists == [] then []
    else if |lists[0]| % 2 == 0 then [Filler(|lists[0]|)] + Marked(lists[1..])
    else [Filler(|lists[0]| - 1) + [B]] + Fillers(lists[1..])
  }

  /** Lists that name the country BA if they hold a code at all. */
  function Naming(lists: seq<text>): (others: seq<text>)
    ensures |others| == |lists|
  {
    seq(|lists|, i requires 0 <= i < |lists| => if |lists[i]| < 2 then Filler(|lists[i]|) else BA + Filler(|lists[i]| - 2))
  }

  lemma FillerLists(n: nat)
    ensures !Lists(Filler(n), BA) && (n % 2 == 0 ==> !Lists(Filler(n) + [B], BA))
  {
    forall k: nat | 2 * k + 2 <= n ensures Code(Filler(n), k) != BA {
      assert Code(Filler(n), k)[0] == A;
    }
    if n % 2 == 0 {
      forall k: nat | 2 * k + 2 <= n + 1 ensures Code(Filler(n) + [B], k) != BA {
        assert Code(Filler(n) + [B], k)[0] == A;
      }
    }
  }

  lemma {:induction false} FillersConcat(lists: seq<text>)
    ensures SameLengths(lists, Fillers(lists)) && !SomeLists(Fillers(lists), BA)
    ensures Concat(Fillers(lists)) == Filler(|Concat(lists)|)
  {
    forall i | 0 <= i < |lists| ensures !Lists(Fillers(lists)[i], BA) {
      FillerLists(|lists[i]|);
    }
    if lists == [] {
    } else {
      FillersConcat(lists[1..]);
      assert Fillers(lists)[1..] == Fillers(lists[1..]);
    }
  }

  lemma FillersSearch(lists: seq<text>)
    ensures Search(Concat(Fillers(lists)), BA) == if |Concat(lists)| % 2 == 0 then Some(false) else None
  {
    FillersConcat(lists);
    FillerLists(|Concat(lists)|);
    AsciiSearch(Filler(|Concat(lists)|), BA);
  }

  /** A dangling half runs into the next list: a code appears that no list holds. */
  lemma {:induction false} MarkedConcat(lists: seq<text>)
    requires !Whole(lists) && |Concat(lists)| % 2 == 0
    ensures Lists(Concat(Marked(lists)), BA)
  {
    hide Lists;
    hide Filler;
    var n, rest := |lists[0]|, lists[1..];
    if n % 2 == 0 {
      assert !Whole(rest);
      MarkedConcat(rest);
      ListsAppend(Filler(n), Concat(Marked(rest)), BA);
      assert Marked(lists)[1..] == Marked(rest);
    } else {
      FillersConcat(rest);
      var tail := Concat(Fillers(rest));
      assert Marked(lists)[1..] == Fillers(rest);
      ListsAppendHalf(Filler(n - 1) + [B], tail, BA);
      FillerStarts(|Concat(rest)|);
    }
  }

  lemma FillerStarts(n: nat)
    requires n > 0
    ensures Filler(n)[0] == A
  {
  }

  lemma {:induction false} MarkedHidden(lists: seq<text>, i: nat)
    requires i < |lists|
    ensures |Marked(lists)[i]| == |lists[i]| && Ascii(Marked(lists)[i]) && !Lists(Marked(lists)[i], BA)
    decreases lists
  {
    hide Lists;
    hide Filler;
    var n, rest := |lists[0]|, lists[1..];
    FillerLists(n);
    if i == 0 {
      if n % 2 == 1 {
        FillerLists(n - 1);
      }
    } else if n % 2 == 0 {
      MarkedHidden(rest, i - 1);
    } else {
      FillerLists(|rest[i - 1]|);
    }
  }

  lemma MarkedSearch(lists: seq<text>)
    requires !Whole(lists) && |Concat(lists)| % 2 == 0
    ensures SameLengths(lists, Marked(lists)) && !SomeLists(Marked(lists), BA)
    ensures Search(Concat(Marked(lists)), BA) == Some(true)
  {
    hide Lists;
    hide Marked;
    MarkedConcat(lists);
    forall i | 0 <= i < |lists|
      ensures |Marked(lists)[i]| == |lists[i]| && Ascii(Marked(lists)[i]) && !Lists(Marked(lists)[i], BA)
    {
      MarkedHidden(lists, i);
    }
    ConcatAscii(Marked(lists));
    AsciiSearch(Concat(Marked(lists)), BA);
  }

  lemma NamingLists(lists: seq<text>, i: nat)
    requires i < |lists| && |lists[i]| >= 2
    ensures SameLengths(lists, Naming(lists)) && SomeLists(Naming(lists), BA)
  {
    assert Code(Naming(lists)[i], 0) == BA;
  }

  lemma NamingFillers(lists: seq<text>)
    ensures SameLengths(lists, Naming(lists))
    ensures Concat(lists) != [] && Whole(lists) ==> SomeLists(Naming(lists), BA)
  {
    if Concat(lists) != [] && Whole(lists) {
      var i := NonEmpty(lists);
      NamingLists(lists, i);
    }
  }

  lemma {:induction false} NonEmpty(lists: seq<text>) returns (i: nat)
    requires Concat(lists) != []
    ensures i < |lists| && lists[i] != []
  {
    if lists[0] != [] {
      i := 0;
    } else {
      i := NonEmpty(lists[1..]);
      i := i + 1;
    }
  }

  lemma {:induction false} SameConcatLength(lists: seq<text>, others: seq<text>)
    requires SameLengths(lists, others)
    ensures |Concat(lists)| == |Concat(others)| && Ascii(Concat(others))
  {
    ConcatAscii(others);
    if lists == [] {
    } else {
      assert SameLengths(lists[1..], others[1..]);
      SameConcatLength(lists[1..], others[1..]);
    }
  }

  lemma {:induction false} NothingInside(lists: seq<text>, i: nat)
    requires Concat(lists) == [] && i < |lists|
    ensures lists[i] == []
    decreases lists
  {
    assert Concat(lists) == lists[0] + Concat(lists[1..]);
    if i == 0 {
    } else {
      NothingInside(lists[1..], i - 1);
    }
  }

  lemma NothingListed(lists: seq<text>, country: text)
    requires Concat(lists) == []
    ensures !SomeLists(lists, country)
  {
    forall i | 0 <= i < |lists| ensures !Lists(lists[i], country) {
      NothingInside(lists, i);
    }
  }

  /** Whole codes everywhere; or else allowed lists that are all empty, which let nothing through anyway,
      and forbidden lists that come to an even length together. */
  ghost predicate Sound(forbidden: seq<text>, allowed: seq<text>) {
    Whole(allowed) && (Whole(forbidden) || (allowed != [] && Concat(allowed) == [] && |Concat(forbidden)| % 2 == 0))
  }

  lemma SoundFollowsRule(forbidden: seq<text>, allowed: seq<text>, f: seq<text>, a: seq<text>, country: text)
    requires Sound(forbidden, allowed) && SameLengths(forbidden, f) && SameLengths(allowed, a)
    ensures Decide(f, a, country) == Some(Rule(f, a, country))
  {
    hide Search;
    if Whole(forbidden) {
      AsciiWholeCodes(f);
      AsciiWholeCodes(a);
      WholeCodesFollowRule(f, a, country);
    } else {
      SameConcatLength(forbidden, f);
      SameConcatLength(allowed, a);
      NothingListed(a, country);
      AsciiSearch(Concat(f), country);
      AsciiSearch(Concat(a), country);
    }
  }

  /** Lists that the rule decides one way and the concatenations another. */
  lemma UnsoundBreaksRule(forbidden: seq<text>, allowed: seq<text>) returns (f: seq<text>, a: seq<text>)
    requires !Sound(forbidden, allowed)
    ensures SameLengths(forbidden, f) && SameLengths(allowed, a) && Decide(f, a, BA) != Some(Rule(f, a, BA))
  {
    hide Search;
    FillersConcat(forbidden);
    FillersSearch(forbidden);
    FillersConcat(allowed);
    FillersSearch(allowed);
    if |Concat(forbidden)| % 2 == 1 {
      f, a := Fillers(forbidden), Fillers(allowed);
    } else if Whole(allowed) {
      MarkedSearch(forbidden);
      NamingFillers(allowed);
      f, a := Marked(forbidden), Naming(allowed);
    } else if |Concat(allowed)| % 2 == 1 {
      f, a := Fillers(forbidden), Fillers(allowed);
    } else {
      MarkedSearch(allowed);
      f, a := Fillers(forbidden), Marked(allowed);
    }
  }

  /** The rule is followed, whatever the letters and the country, if and only if the lengths are sound. */
  lemma RuleFollowedExactly(forbidden: seq<text>, allowed: seq<text>)
    ensures RuleFollowed(forbidden, allowed) <==> Sound(forbidden, allowed)
  {
    if Sound(forbidden, allowed) {
      forall f: seq<text>, a: seq<text>, country: text | SameLengths(forbidden, f) && SameLengths(allowed, a)
        ensures Decide(f, a, country) == Some(Rule(f, a, country))
      {
        SoundFollowsRule(forbidden, allowed, f, a, country);
      }
    } else {
      var f, a := UnsoundBreaksRule(forbidden, allowed);
    }
  }

  // ----- the decision on restrictions

  /** The lists that count are those of the restrictions that name the catalogue among theirs, in their order. */
  lemma ListsInOrder(rs: seq<Restriction>, r: Restriction, catalogue: text)
    ensures ForbiddenLists([], catalogue) == [] && AllowedLists([], catalogue) == []
    ensures ForbiddenLists(rs + [r], catalogue) == ForbiddenLists(rs, catalogue) +
              if catalogue in r.catalogues && r.forbidden.Some? then [r.forbidden.value] else []
    ensures AllowedLists(rs + [r], catalogue) == AllowedLists(rs, catalogue) +
              if catalogue in r.catalogues && r.allowed.Some? then [r.allowed.value] else []
  {
    assert (rs + [r])[..|rs|] == rs;
  }

  lemma {:induction false} ForbiddenExactly(rs: seq<Restriction>, catalogue: text, l: text)
    ensures l in ForbiddenLists(rs, catalogue) <==>
            exists r :: r in rs && catalogue in r.catalogues && r.forbidden == Some(l)
  {
    if rs == [] {
    } else {
      var n := |rs| - 1;
      assert rs == rs[..n] + [rs[n]];
      ForbiddenExactly(rs[..n], catalogue, l);
    }
  }

  lemma {:induction false} AllowedExactly(rs: seq<Restriction>, catalogue: text, l: text)
    ensures l in AllowedLists(rs, catalogue) <==>
            exists r :: r in rs && catalogue in r.catalogues && r.allowed == Some(l)
  {
    if rs == [] {
    } else {
      var n := |rs| - 1;
      assert rs == rs[..n] + [rs[n]];
      AllowedExactly(rs[..n], catalogue, l);
    }
  }

  /** The concatenated lists decide: the forbidden ones are searched first, the allowed ones only if that search ends
      without the country, and a search that panics makes the decision panic. */
  lemma DecideExactly(forbidden: seq<text>, allowed: seq<text>, country: text)
    ensures var f, a := Search(Concat(forbidden), country), Search(Concat(allowed), country);
            && (Decide(forbidden, allowed, country) == Some(true) <==>
                  && (forbidden != [] || allowed != [])
                  && (forbidden != [] ==> f == Some(false)) && (allowed != [] ==> a == Some(true)))
            && (Decide(forbidden, allowed, country) == None <==>
                  || (forbidden != [] && f == None)
                  || (allowed != [] && a == None && (forbidden != [] ==> f == Some(false))))
  {
    hide Search;
  }

  /** Restrictions whose lists are made of whole two-letter codes: a track is available in a country if and only if
      some restriction of the catalogue has a list, none of them forbids the country, and, if any allows countries at
      all, one of them allows this one. */
  lemma RestrictionsFollowRule(rs: seq<Restriction>, country: text, catalogue: text)
    requires forall r :: r in rs && catalogue in r.catalogues ==>
               && (r.forbidden.Some? ==> |r.forbidden.value| % 2 == 0 && Ascii(r.forbidden.value))
               && (r.allowed.Some? ==> |r.allowed.value| % 2 == 0 && Ascii(r.allowed.value))
    ensures Decide(ForbiddenLists(rs, catalogue), AllowedLists(rs, catalogue), country) ==
            Some(&& (exists r :: r in rs && catalogue in r.catalogues && (r.forbidden.Some? || r.allowed.Some?))
                 && !(exists r :: r in rs && catalogue in r.catalogues && r.forbidden.Some?
                        && Lists(r.forbidden.value, country))
                 && ((exists r :: r in rs && catalogue in r.catalogues && r.allowed.Some?) ==>
                       exists r :: r in rs && catalogue in r.catalogues && r.allowed.Some?
                         && Lists(r.allowed.value, country)))
  {
    hide Lists;
    hide Decide;
    hide Ascii;
    var fs, gs := ForbiddenLists(rs, catalogue), AllowedLists(rs, catalogue);
    forall l: text ensures l in fs <==> exists r :: r in rs && catalogue in r.catalogues && r.forbidden == Some(l) {
      ForbiddenExactly(rs, catalogue, l);
    }
    forall l: text ensures l in gs <==> exists r :: r in rs && catalogue in r.catalogues && r.allowed == Some(l) {
      AllowedExactly(rs, catalogue, l);
    }
    hide ForbiddenLists;
    hide AllowedLists;
    forall i | 0 <= i < |fs| ensures |fs[i]| % 2 == 0 && Ascii(fs[i]) {
      assert fs[i] in fs;
    }
    forall i | 0 <= i < |gs| ensures |gs[i]| % 2 == 0 && Ascii(gs[i]) {
      assert gs[i] in gs;
    }
    AsciiWholeCodes(fs);
    AsciiWholeCodes(gs);
    WholeCodesFollowRule(fs, gs, country);
    SomeMember(fs, country);
    SomeMember(gs, country);
    hide SomeLists;
    assert fs != [] <==> exists r :: r in rs && catalogue in r.catalogues && r.forbidden.Some? by {
      if fs != [] {
        assert fs[0] in fs;
      }
    }
    assert gs != [] <==> exists r :: r in rs && catalogue in r.catalogues && r.allowed.Some? by {
      if gs != [] {
        assert gs[0] in gs;
      }
    }
    assert (exists l :: l in fs && Lists(l, country)) <==>
           exists r :: r in rs && catalogue in r.catalogues && r.forbidden.Some? && Lists(r.forbidden.value, country);
    assert (exists l :: l in gs && Lists(l, country)) <==>
           exists r :: r in rs && catalogue in r.catalogues && r.allowed.Some? && Lists(r.allowed.value, country);
  }

  lemma SomeMember(lists: seq<text>, country: text)
    ensures SomeLists(lists, country) <==> exists l :: l in lists && Lists(l, country)
  {
    hide Lists;
    if exists l :: l in lists && Lists(l, country) {
      var l :| l in lists && Lists(l, country);
      var i :| 0 <= i < |lists| && lists[i] == l;
      assert Lists(lists[i], country);
    }
  }

  /** Two restrictions of one catalogue put their two lists together. */
  lemma TwoForbidden(catalogue: text, a: text, b: text)
    ensures var rs := [Restriction([catalogue], Some(a), None), Restriction([catalogue], Some(b), None)];
            ForbiddenLists(rs, catalogue) == [a, b] && AllowedLists(rs, catalogue) == []
  {
    var rs := [Restriction([catalogue], Some(a), None), Restriction([catalogue], Some(b), None)];
    assert rs[..1] == [rs[0]] && rs[..1][..0] == [];
    assert ForbiddenLists(rs[..1], catalogue) == [a] && AllowedLists(rs[..1], catalogue) == [];
  }

  const FRU: text := [0x46, 0x52, 0x55]
  const SDE: text := [0x53, 0x44, 0x45]
  const US: text := [0x55, 0x53]

  lemma HalfCodesSearch()
    ensures !Lists(FRU, US) && !Lists(SDE, US)
    ensures Search(Concat([FRU, SDE]), US) == Some(true)
  {
    assert Code(FRU, 0)[0] == 0x46 && Code(SDE, 0)[0] == 0x53;
    assert [FRU, SDE][1..] == [SDE];
    ConcatOne(SDE);
    assert Code(FRU + SDE, 1) == US;
    AsciiSearch(FRU + SDE, US);
  }

  /** Two lists with half codes that both leave US alone, and that `parse_restrictions` reads as forbidding it. */
  lemma HalfCodesRunTogether(catalogue: text)
    ensures var rs := [Restriction([catalogue], Some(FRU), None), Restriction([catalogue], Some(SDE), None)];
            var forbidden, allowed := ForbiddenLists(rs, catalogue), AllowedLists(rs, catalogue);
            Rule(forbidden, allowed, US) && Decide(forbidden, allowed, US) == Some(false)
  {
    hide Search;
    hide Lists;
    hide ForbiddenLists;
    hide AllowedLists;
    TwoForbidden(catalogue, FRU, SDE);
    HalfCodesSearch();
    forall i | 0 <= i < 2 ensures !Lists([FRU, SDE][i], US) {
    }
  }
}
