/** The form checks app.py applies before it calls into the data modules:
    title and description lengths, the age pattern, the `title:value` class
    entries against the catalog, and the blank-content test. */
module Validation {
  import opened Wrappers
  import opened Db
  import Rows
  import Messages

  /** What a check yields: the accepted value, or the HTTP status the request
      ends with. */
  datatype Checked<T> = Pass(value: T) | Fail(status: nat)

  const Forbidden: nat := 403
  const NotFound: nat := 404
  /** An uncaught Python exception, which Flask answers with status 500. */
  const ServerError: nat := 500

  /** app.py:127 and app.py:186: a non-empty title of at most 50 characters. */
  predicate ValidTitle(title: string) {
    0 < |title| <= 50
  }

  /** app.py:131 and app.py:186: a non-empty description of at most 1000 characters. */
  predicate ValidDescription(description: string) {
    0 < |description| <= 1000
  }

  predicate IsDigit(c: char) {
    '0' <= c <= '9'
  }

  function DigitValue(c: char): nat
    requires IsDigit(c)
  {
    c as nat - '0' as nat
  }

  function DigitChar(d: nat): (c: char)
    requires d < 10
    ensures IsDigit(c) && DigitValue(c) == d
  {
    ('0' as nat + d) as char
  }

  /** The pattern `[1-9][0-9]{0,2}` over a whole string: one to three ASCII
      digits, the first not zero. */
  predicate AgeDigits(s: string) {
    && 1 <= |s| <= 3
    && '1' <= s[0] <= '9'
    && forall i :: 1 <= i < |s| ==> IsDigit(s[i])
  }

  /** The age test as app.py:135 writes it: `re.search` with `^...$`. Python's
      `$` matches at the end of the string and also just before a newline
      that ends it, so a digit string followed by one `\n` passes too. */
  predicate AgeAcceptedAsWritten(age: string) {
    AgeDigits(age) || (|age| > 0 && age[|age| - 1] == '\n' && AgeDigits(age[..|age| - 1]))
  }

  /** The age test as intended: the whole field is one to three digits with
      no leading zero. */
  predicate AgeAccepted(age: string) {
    AgeDigits(age)
  }

  /** A trailing newline gets past the pattern as written but not past the
      intended full match. */
  lemma AgeTrailingNewline()
    ensures AgeAcceptedAsWritten("7\n") && !AgeAccepted("7\n")
  {
    assert "7\n"[..1] == "7";
  }

  /** The as-written test accepts exactly the intended strings plus those
      strings with one newline appended. */
  lemma AgeAsWrittenIsIntendedOrNewline(age: string)
    ensures AgeAcceptedAsWritten(age) <==>
            AgeAccepted(age) || exists core :: AgeAccepted(core) && age == core + "\n"
  {
    if |age| > 0 && age[|age| - 1] == '\n' && AgeDigits(age[..|age| - 1]) {
      assert age == age[..|age| - 1] + "\n";
    }
    if exists core :: AgeAccepted(core) && age == core + "\n" {
      var core :| AgeAccepted(core) && age == core + "\n";
      assert age[..|age| - 1] == core;
    }
  }

  /** The number a digit string spells in base ten. */
  function DecimalValue(s: string): nat
    requires forall i :: 0 <= i < |s| ==> IsDigit(s[i])
  {
    if |s| == 0 then 0 else 10 * DecimalValue(s[..|s| - 1]) + DigitValue(s[|s| - 1])
  }

  /** The shortest base-ten spelling of a positive number. */
  function Decimal(n: nat): (s: string)
    requires n > 0
    ensures |s| > 0 && forall i :: 0 <= i < |s| ==> IsDigit(s[i])
    ensures s[0] != '0'
  {
    if n < 10 then [DigitChar(n)] else Decimal(n / 10) + [DigitChar(n % 10)]
  }

  lemma {:induction false} DecimalLength(n: nat)
    requires n > 0
    ensures |Decimal(n)| == (if n < 10 then 1 else if n < 100 then 2 else if n < 1000 then 3 else |Decimal(n)|)
    ensures n < 1000 ==> |Decimal(n)| <= 3
  {
    if n >= 10 {
      DecimalLength(n / 10);
    }
  }

  lemma {:induction false} DecimalValueOfDecimal(n: nat)
    requires n > 0
    ensures DecimalValue(Decimal(n)) == n
  {
    if n >= 10 {
      var s := Decimal(n);
      assert s[..|s| - 1] == Decimal(n / 10);
      DecimalValueOfDecimal(n / 10);
    }
  }

  lemma {:induction false} DecimalOfDecimalValue(s: string)
    requires |s| > 0 && s[0] != '0'
    requires forall i :: 0 <= i < |s| ==> IsDigit(s[i])
    ensures DecimalValue(s) > 0
    ensures Decimal(DecimalValue(s)) == s
  {
    if |s| == 1 {
      assert DecimalValue(s) == DigitValue(s[0]);
    } else {
      var init := s[..|s| - 1];
      assert init[0] == s[0];
      DecimalOfDecimalValue(init);
      var n := DecimalValue(s);
      assert n / 10 == DecimalValue(init) && n % 10 == DigitValue(s[|s| - 1]);
      assert DigitChar(n % 10) == s[|s| - 1];
      assert s == init + [s[|s| - 1]];
    }
  }

  /** The accepted ages are exactly the spellings of 1 through 999: every
      accepted string reads as a number in that range and is that number's
      spelling, and every number in the range is accepted when spelled. */
  lemma AgeAcceptedIsOneTo999(age: string, n: nat)
    ensures AgeAccepted(age) ==> 1 <= DecimalValue(age) <= 999 && Decimal(DecimalValue(age)) == age
    ensures 1 <= n <= 999 ==> AgeAccepted(Decimal(n)) && DecimalValue(Decimal(n)) == n
  {
    if AgeAccepted(age) {
      DecimalOfDecimalValue(age);
      DecimalAtLeastFour(DecimalValue(age));
    }
    if 1 <= n <= 999 {
      DecimalLength(n);
      DecimalValueOfDecimal(n);
    }
  }

  lemma {:induction false} DecimalAtLeastFour(n: nat)
    requires n > 0
    ensures n >= 1000 ==> |Decimal(n)| >= 4
  {
    if n / 10 >= 1000 {
      DecimalAtLeastFour(n / 10);
    } else if n >= 1000 {
      DecimalLength(n / 10);
    }
  }

  /** Position of the first `:` in `s`; |s| when there is none. */
  function ColonAt(s: string): (k: nat)
    ensures k <= |s|
    ensures k < |s| ==> s[k] == ':'
    ensures forall j :: 0 <= j < k ==> s[j] != ':'
  {
    if |s| == 0 then 0
    else if s[0] == ':' then 0
    else 1 + ColonAt(s[1..])
  }

  /** `class_title, class_value = entry.split(":")`: succeeds only when the
      entry holds exactly one colon; otherwise the unpacking raises. */
  function SplitPair(entry: string): (r: Option<Class>)
    ensures r.Some? ==> entry == r.value.title + ":" + r.value.value
    ensures r.Some? ==> ':' !in r.value.title && ':' !in r.value.value
    ensures r.None? ==> ':' !in entry || exists i, j :: 0 <= i < j < |entry| && entry[i] == ':' && entry[j] == ':'
  {
    var k := ColonAt(entry);
    if k == |entry| then None
    else
      var rest := entry[k + 1..];
      var m := ColonAt(rest);
      if m < |rest| then
        assert entry[k + 1 + m] == rest[m];
        None
      else
        assert entry == entry[..k] + ":" + rest;
        Some(Class(entry[..k], rest))
  }

  /** Splitting a joined pair gives the pair back. */
  lemma SplitPairOfJoined(title: string, value: string)
    requires ':' !in title && ':' !in value
    ensures SplitPair(title + ":" + value) == Some(Class(title, value))
  {
    var entry := title + ":" + value;
    assert entry == title + (":" + value);
    ColonAtNone(title);
    ColonAtPrefix(title, ":" + value);
    assert ColonAt(":" + value) == 0;
    assert entry[..|title|] == title;
    assert entry[|title| + 1..] == value;
    ColonAtNone(value);
  }

  lemma {:induction false} ColonAtNone(s: string)
    requires ':' !in s
    ensures ColonAt(s) == |s|
  {
    if |s| > 0 {
      assert s[0] in s;
      assert forall c :: c in s[1..] ==> c in s;
      ColonAtNone(s[1..]);
    }
  }

  lemma {:induction false} ColonAtPrefix(s: string, t: string)
    requires ColonAt(s) == |s|
    ensures ColonAt(s + t) == |s| + ColonAt(t)
  {
    if |s| > 0 {
      assert (s + t)[1..] == s[1..] + t;
      ColonAtPrefix(s[1..], t);
    } else {
      assert s + t == t;
    }
  }

  /** Whether one form entry gets through the loop of app.py:142-147: empty
      entries are skipped; others must split into a pair the catalog offers. */
  predicate EntryOk(groups: seq<Messages.Group>, entry: string) {
    entry == "" || (SplitPair(entry).Some? && Messages.Offers(groups, SplitPair(entry).value))
  }

  function Render(c: Class): string {
    c.title + ":" + c.value
  }

  /** The class-entry loop of app.py:142-147 (and app.py:192-197): the pairs
      of the non-empty entries in form order, or the status of the first
      entry that fails — 500 when it does not split, 403 when the catalog
      does not offer it. */
  function ParseClasses(entries: seq<string>, groups: seq<Messages.Group>): (r: Checked<seq<Class>>)
    ensures r.Pass? <==> forall e :: e in entries ==> EntryOk(groups, e)
    ensures r.Pass? ==> forall c :: c in r.value ==> Messages.Offers(groups, c)
    ensures r.Fail? ==> exists k :: (0 <= k < |entries| && !EntryOk(groups, entries[k])
      && (forall j :: 0 <= j < k ==> EntryOk(groups, entries[j]))
      && r.status == (if SplitPair(entries[k]).None? then ServerError else Forbidden))
  {
    if |entries| == 0 then Pass([])
    else
      var rest := ParseClasses(entries[1..], groups);
      assert forall e :: e in entries ==> e == entries[0] || e in entries[1..];
      assert forall j :: 0 <= j < |entries[1..]| ==> entries[1..][j] == entries[j + 1];
      assert entries[0] in entries;
      if entries[0] == "" then rest
      else match SplitPair(entries[0])
        case None => Fail(ServerError)
        case Some(c) =>
          if !Messages.Offers(groups, c) then Fail(Forbidden)
          else match rest
            case Fail(s) => Fail(s)
            case Pass(cs) => Pass([c] + cs)
  }

  function NonEmpty(entries: seq<string>): seq<string> {
    Rows.Where(entries, (e: string) => e != "")
  }

  /** The accepted pairs, written back as `title:value`, are the non-empty
      entries in form order: nothing is dropped, added or reordered. */
  lemma {:induction false} ParseClassesKeepsEntries(entries: seq<string>, groups: seq<Messages.Group>)
    requires ParseClasses(entries, groups).Pass?
    ensures Rows.Select(ParseClasses(entries, groups).value, (c: Class) => true, Render) == NonEmpty(entries)
  {
    if |entries| > 0 {
      assert forall e :: e in entries[1..] ==> e in entries;
      ParseClassesKeepsEntries(entries[1..], groups);
      var head := if entries[0] != "" then [entries[0]] else [];
      assert NonEmpty(entries) == head + NonEmpty(entries[1..]);
      if entries[0] != "" {
        var c := SplitPair(entries[0]).value;
        var cs := ParseClasses(entries[1..], groups).value;
        assert ParseClasses(entries, groups).value == [c] + cs;
        assert ([c] + cs)[1..] == cs;
      }
    }
  }

  /** Every pair the route accepts is a row of the class catalog. */
  lemma AcceptedPairsAreCatalogRows(db: Store, entries: seq<string>)
    ensures var r := ParseClasses(entries, Messages.GetAllClasses(db));
            r.Pass? ==> forall c :: c in r.value ==> c in db.catalog
  {
    var groups := Messages.GetAllClasses(db);
    forall c: Class ensures Messages.Offers(groups, c) <==> c in db.catalog {
      Messages.OffersIffCatalogRow(db.catalog, groups, c);
    }
  }

  /** Python's `str.isspace` characters: what `str.strip()` removes. */
  predicate IsSpace(c: char) {
    || c == '\t' || c == '\n' || c == '\U{B}' || c == '\U{C}' || c == '\r'
    || ('\U{1C}' <= c <= '\U{1F}') || c == ' ' || c == '\U{85}' || c == '\U{A0}'
    || c == '\U{1680}' || ('\U{2000}' <= c <= '\U{200A}') || c == '\U{2028}' || c == '\U{2029}'
    || c == '\U{202F}' || c == '\U{205F}' || c == '\U{3000}'
  }

  /** Nothing but whitespace (the empty string included). */
  predicate Blank(s: string) {
    forall i :: 0 <= i < |s| ==> IsSpace(s[i])
  }

  /** `s.lstrip()`. */
  function StripStart(s: string): (r: string)
    ensures |r| <= |s| && r == s[|s| - |r|..]
    ensures r == [] || !IsSpace(r[0])
    ensures Blank(s[..|s| - |r|])
  {
    if |s| == 0 || !IsSpace(s[0]) then s
    else
      var r := StripStart(s[1..]);
      assert s[..|s| - |r|] == [s[0]] + s[1..][..|s[1..]| - |r|];
      r
  }

  /** `s.rstrip()`. */
  function StripEnd(s: string): (r: string)
    ensures |r| <= |s| && r == s[..|r|]
    ensures r == [] || !IsSpace(r[|r| - 1])
    ensures Blank(s[|r|..])
  {
    if |s| == 0 || !IsSpace(s[|s| - 1]) then s
    else
      var r := StripEnd(s[..|s| - 1]);
      assert s[|r|..] == s[..|s| - 1][|r|..] + [s[|s| - 1]];
      r
  }

  /** `s.strip()`. */
  function Strip(s: string): string {
    StripEnd(StripStart(s))
  }

  lemma {:induction false} StripStartOfBlank(s: string)
    requires Blank(s)
    ensures StripStart(s) == []
  {
    if |s| > 0 {
      StripStartOfBlank(s[1..]);
    }
  }

  /** `not content.strip()` holds exactly when the content is all whitespace. */
  lemma StripEmptyIffBlank(s: string)
    ensures Strip(s) == [] <==> Blank(s)
  {
    var a := StripStart(s);
    if Strip(s) == [] {
      assert a[0..] == a;
      assert a == [];
      assert s[..|s|] == s;
    }
    if Blank(s) {
      StripStartOfBlank(s);
    }
  }
}
