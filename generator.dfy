/**
  The locale data generator (LocaleGenerator/LocaleDataGenerator.cs): turns
  the text of the country, ISO code, currency, continent and province data
  files into the tables the library is compiled with.

  The file contents are parameters; loading and fetching them, and the C#
  text the generator emits, are not modelled. What is modelled is how the
  text is cut into tokens and how the tables are built from the tokens.
 */
module LocaleData {
  import opened Outcomes
  import opened Text

  /** The characters `Split` cuts the JSON data files at. */
  const JsonSeparators: set<char> := {'\r', '\n', ':', '"', '{', '}'}

  /** `Split`: the non-empty runs of the text between separators. */
  function Split(x: string): (r: seq<string>)
    ensures forall i :: 0 <= i < |r| ==> |r[i]| > 0 && Avoids(r[i], JsonSeparators)
    ensures Concat(r) == Without(x, JsonSeparators)
  {
    SplitOn(x, JsonSeparators)
  }

  /** Splitting a `:`-joined list of clean tokens gives the tokens back. */
  lemma SplitRoundTrip(tokens: seq<string>)
    requires forall i :: 0 <= i < |tokens| ==> |tokens[i]| > 0 && Avoids(tokens[i], JsonSeparators)
    ensures Split(Join(tokens, ':')) == tokens
  {
    SplitOnJoin(tokens, ':', JsonSeparators);
  }

  // ---------------------------------------------------------------------
  // Enum member names
  // ---------------------------------------------------------------------

  /** `s.Replace(from, to)` for single characters. */
  function ReplaceChar(s: string, from: char, to: char): (r: string)
    ensures |r| == |s|
    ensures forall k :: 0 <= k < |s| ==> r[k] == (if s[k] == from then to else s[k])
  {
    seq(|s|, k requires 0 <= k < |s| => if s[k] == from then to else s[k])
  }

  /** The number of (necessarily disjoint) occurrences of ",_" in `s`. */
  function CommaUnderscores(s: string): nat {
    if |s| < 2 then 0
    else (if s[0] == ',' && s[1] == '_' then 1 else 0) + CommaUnderscores(s[1..])
  }

  /** `s.Replace(",_", "_")`: scans left to right, replacing each occurrence
      and resuming after it. */
  function DropCommaBeforeUnderscore(s: string): (r: string)
    ensures |r| == |s| - CommaUnderscores(s)
    ensures Without(r, {','}) == Without(s, {','})
  {
    if |s| >= 2 && s[0] == ',' && s[1] == '_' then
      assert s[1..][1..] == s[2..];
      ['_'] + DropCommaBeforeUnderscore(s[2..])
    else if s == [] then []
    else [s[0]] + DropCommaBeforeUnderscore(s[1..])
  }

  lemma {:induction false} DropCommaKeepsAvoiding(s: string, chars: set<char>)
    requires Avoids(s, chars) && '_' !in chars
    ensures Avoids(DropCommaBeforeUnderscore(s), chars)
    decreases |s|
  {
    if |s| >= 2 && s[0] == ',' && s[1] == '_' {
      DropCommaKeepsAvoiding(s[2..], chars);
    } else if s != [] {
      DropCommaKeepsAvoiding(s[1..], chars);
    }
  }

  lemma {:induction false} WithoutReplaced(s: string, from: char, to: char, chars: set<char>)
    requires from in chars && to in chars
    ensures Without(ReplaceChar(s, from, to), chars) == Without(s, chars)
    decreases |s|
  {
    if s != [] {
      WithoutReplaced(s[1..], from, to, chars);
      assert ReplaceChar(s, from, to)[1..] == ReplaceChar(s[1..], from, to);
    }
  }

  lemma {:induction false} WithoutTwice(s: string, a: set<char>, b: set<char>)
    ensures Without(Without(s, a), b) == Without(s, a + b)
    decreases |s|
  {
    if s != [] {
      WithoutTwice(s[1..], a, b);
      var w := Without(s, a);
      if s[0] !in a {
        assert w[1..] == Without(s[1..], a);
      } else {
        assert w == Without(s[1..], a);
      }
    }
  }

  lemma {:induction false} WithoutSubset(s: string, a: set<char>, b: set<char>)
    requires a <= b
    ensures Without(Without(s, a), b) == Without(s, b)
  {
    WithoutTwice(s, a, b);
    assert a + b == b;
  }

  lemma {:induction false} WithoutExtra(s: string, a: set<char>, extra: set<char>)
    requires Avoids(s, extra)
    ensures Without(s, a + extra) == Without(s, a)
    decreases |s|
  {
    if s != [] {
      WithoutExtra(s[1..], a, extra);
    }
  }

  lemma {:induction false} WithoutKeepsAvoiding(s: string, a: set<char>, chars: set<char>)
    requires Avoids(s, chars)
    ensures Avoids(Without(s, a), chars)
    decreases |s|
  {
    if s != [] {
      WithoutKeepsAvoiding(s[1..], a, chars);
    }
  }

  /** `EnumName`: a name turned into a C# identifier. Spaces and hyphens become
      underscores, full stops go, and a comma in front of an underscore goes;
      every other character is kept, in order. */
  function EnumName(name: string): (r: string)
    ensures |r| <= |name|
    ensures Avoids(r, {' ', '-', '.'})
    ensures Without(r, {',', '_'}) == Without(name, {',', '_', ' ', '-', '.'})
  {
    var a := ReplaceChar(name, ' ', '_');
    var b := ReplaceChar(a, '-', '_');
    var c := Without(b, {'.'});
    var r := DropCommaBeforeUnderscore(c);
    WithoutKeepsAvoiding(b, {'.'}, {' ', '-'});
    DropCommaKeepsAvoiding(c, {' ', '-', '.'});
    calc {
      Without(r, {',', '_'});
      { WithoutSubset(r, {','}, {',', '_'}); }
      Without(Without(r, {','}), {',', '_'});
      { WithoutSubset(c, {','}, {',', '_'}); }
      Without(c, {',', '_'});
      { WithoutTwice(b, {'.'}, {',', '_'}); assert {'.'} + {',', '_'} == {',', '_', '.'}; }
      Without(b, {',', '_', '.'});
      { WithoutExtra(b, {',', '_', '.'}, {'-'}); assert {',', '_', '.'} + {'-'} == {',', '_', '.', '-'}; }
      Without(b, {',', '_', '.', '-'});
      { WithoutReplaced(a, '-', '_', {',', '_', '.', '-'}); }
      Without(a, {',', '_', '.', '-'});
      { WithoutExtra(a, {',', '_', '.', '-'}, {' '}); assert {',', '_', '.', '-'} + {' '} == {',', '_', ' ', '-', '.'}; }
      Without(a, {',', '_', ' ', '-', '.'});
      { WithoutReplaced(name, ' ', '_', {',', '_', ' ', '-', '.'}); }
      Without(name, {',', '_', ' ', '-', '.'});
    }
    r
  }

  // ---------------------------------------------------------------------
  // Countries
  // ---------------------------------------------------------------------

  /** The reader's records of a tokenised JSON object, four tokens apart: a
      key at offset 0 and its value at offset 2 (offsets 1 and 3 are the
      white space and the separator between the quoted strings). That is the
      layout only while every value is non-empty: splitting drops empty
      tokens, so an empty value leaves no token, and from there on every
      record starts one token earlier than the reader expects (see
      `EmptyCurrencyShiftsRecords`). A record whose value token is missing
      is not included. */
  function Rows(t: seq<string>): (rows: seq<(string, string)>)
    ensures |rows| == (|t| + 1) / 4
    ensures forall k :: 0 <= k < |rows| ==> rows[k] == (t[4 * k], t[4 * k + 2])
  {
    seq((|t| + 1) / 4, k requires 0 <= k < (|t| + 1) / 4 => (t[4 * k], t[4 * k + 2]))
  }

  /** The country names in file order, trimmed. */
  function Names(rows: seq<(string, string)>): (names: seq<string>)
    ensures |names| == |rows|
    ensures forall k :: 0 <= k < |rows| ==> names[k] == Trim(rows[k].1)
  {
    seq(|rows|, k requires 0 <= k < |rows| => Trim(rows[k].1))
  }

  /** The ISO-2 map after the first loop: each code set to its trimmed name,
      later rows overwriting earlier ones. */
  function Assign(rows: seq<(string, string)>): (m: map<string, string>)
    ensures |m| <= |rows|
  {
    if rows == [] then map[]
    else Assign(rows[..|rows| - 1])[rows[|rows| - 1].0 := Trim(rows[|rows| - 1].1)]
  }

  /** The second loop from record `k` on: an ISO-3 code is mapped to the name
      of its ISO-2 code when that code is mapped already; a mapped code whose
      ISO-3 token is missing indexes past the end of the tokens. */
  function IsoFrom(u: seq<string>, k: nat, m: map<string, string>): (r: Result<map<string, string>>)
    ensures r.Failure? ==> r.error == IndexOutOfRange
    decreases |u| - 4 * k
  {
    if 4 * k >= |u| then Success(m)
    else if u[4 * k] !in m then IsoFrom(u, k + 1, m)
    else if 4 * k + 2 >= |u| then Failure(IndexOutOfRange)
    else IsoFrom(u, k + 1, m[u[4 * k + 2] := m[u[4 * k]]])
  }

  /** What `Countries` computes from the two files: the code map and the
      sorted list of names, or the exception it throws. */
  function CountriesOf(countriesText: string, isoText: string): (r: Result<(map<string, string>, seq<string>)>)
    ensures r.Failure? ==> r.error == IndexOutOfRange
  {
    var t := Split(countriesText);
    if |t| % 4 == 1 || |t| % 4 == 2 then Failure(IndexOutOfRange)
    else
      var rows := Rows(t);
      match IsoFrom(Split(isoText), 0, Assign(rows))
      case Failure(e) => Failure(e)
      case Success(m) => Success((m, SortStrings(Names(rows))))
  }

  lemma RecordStep(rows: seq<(string, string)>, k: nat)
    requires k < |rows|
    ensures Names(rows[..k + 1]) == Names(rows[..k]) + [Trim(rows[k].1)]
    ensures Assign(rows[..k + 1]) == Assign(rows[..k])[rows[k].0 := Trim(rows[k].1)]
  {
    assert rows[..k + 1][..k] == rows[..k];
  }

  /** A record whose key token is the last or second-to-last token. */
  lemma PartialRecord(n: nat, k: nat)
    requires 4 * k < n <= 4 * k + 2
    ensures n % 4 == 1 || n % 4 == 2
  {
  }

  lemma RecordsExhausted(n: nat, k: nat)
    requires k <= (n + 1) / 4 && n <= 4 * k
    ensures k == (n + 1) / 4 && n % 4 != 1 && n % 4 != 2
  {
    var q := (n + 1) / 4;
    assert 4 * q <= n + 1 < 4 * q + 4;
    assert n == 4 * k || n + 1 == 4 * k;
    if n == 4 * k {
      assert n % 4 == 0;
    } else {
      assert n == 4 * (k - 1) + 3;
      assert n % 4 == 3;
    }
  }

  /** `Countries`: maps every ISO-2 code, and every ISO-3 code whose ISO-2
      code is known, to a country name; `names` is the sorted list of names. */
  method Countries(countriesText: string, isoText: string) returns (r: Result<(map<string, string>, seq<string>)>)
    ensures r == CountriesOf(countriesText, isoText)
  {
    var countries := Split(countriesText);
    var iso := Split(isoText);
    var read := MapCountryNames(countries);
    if read.Failure? {
      return Failure(read.error);
    }
    var mapped := MapIsoCodes(iso, read.value.0);
    if mapped.Failure? {
      return Failure(mapped.error);
    }
    var names := SortStrings(read.value.1);
    return Success((mapped.value, names));
  }

  /** The first loop of `Countries`: each ISO-2 code mapped to its trimmed
      name, later records overwriting earlier ones, and the names in file
      order; a last record without its name token indexes past the end. */
  method MapCountryNames(countries: seq<string>) returns (r: Result<(map<string, string>, seq<string>)>)
    ensures r == if |countries| % 4 == 1 || |countries| % 4 == 2 then Failure(IndexOutOfRange)
      else Success((Assign(Rows(countries)), Names(Rows(countries))))
  {
    ghost var rows := Rows(countries);
    var m: map<string, string> := map[];
    var names: seq<string> := [];
    var k := 0;
    while 4 * k < |countries|
      invariant 0 <= k <= |rows|
      invariant names == Names(rows[..k])
      invariant m == Assign(rows[..k])
    {
      if 4 * k + 2 >= |countries| {
        PartialRecord(|countries|, k);
        return Failure(IndexOutOfRange);
      }
      RecordStep(rows, k);
      assert rows[k] == (countries[4 * k], countries[4 * k + 2]);
      names := names + [Trim(countries[4 * k + 2])];
      m := m[countries[4 * k] := Trim(countries[4 * k + 2])];
      k := k + 1;
    }
    RecordsExhausted(|countries|, k);
    assert rows[..k] == rows;
    return Success((m, names));
  }

  /** The second loop of `Countries`: each ISO-3 code whose ISO-2 code is
      mapped gets the same name. */
  method MapIsoCodes(iso: seq<string>, m0: map<string, string>) returns (r: Result<map<string, string>>)
    ensures r == IsoFrom(iso, 0, m0)
  {
    var m := m0;
    var k := 0;
    while 4 * k < |iso|
      invariant IsoFrom(iso, k, m) == IsoFrom(iso, 0, m0)
      decreases |iso| - 4 * k
    {
      if iso[4 * k] in m {
        if 4 * k + 2 >= |iso| {
          return Failure(IndexOutOfRange);
        }
        m := m[iso[4 * k + 2] := m[iso[4 * k]]];
      }
      k := k + 1;
    }
    return Success(m);
  }

  /** The first loop maps exactly the ISO-2 codes of the records. */
  lemma {:induction false} AssignedCodes(rows: seq<(string, string)>)
    ensures forall code :: code in Assign(rows) <==> exists j :: 0 <= j < |rows| && rows[j].0 == code
  {
    if rows != [] {
      var n := |rows| - 1;
      AssignedCodes(rows[..n]);
      forall code | code in Assign(rows)
        ensures exists j :: 0 <= j < |rows| && rows[j].0 == code
      {
        if code != rows[n].0 {
          assert code in Assign(rows[..n]);
          var j :| 0 <= j < n && rows[..n][j].0 == code;
          assert rows[j].0 == code;
        }
      }
      forall j | 0 <= j < |rows| ensures rows[j].0 in Assign(rows) {
        if j < n { assert rows[..n][j] == rows[j]; }
      }
    }
  }

  /** No record after `j` has the code of record `j`. */
  ghost predicate LastWithCode(rows: seq<(string, string)>, j: nat)
    requires j < |rows|
  {
    forall j' :: j < j' < |rows| ==> rows[j'].0 != rows[j].0
  }

  /** Each code is mapped to the trimmed name of its last record. */
  lemma {:induction false} LastRecordWins(rows: seq<(string, string)>, j: nat)
    requires j < |rows|
    requires LastWithCode(rows, j)
    ensures rows[j].0 in Assign(rows) && Assign(rows)[rows[j].0] == Trim(rows[j].1)
  {
    var n := |rows| - 1;
    if j < n {
      LastRecordWins(rows[..n], j);
    }
  }

  /** Every name the first loop maps a code to is in the list of names. */
  lemma {:induction false} AssignedNamesListed(rows: seq<(string, string)>)
    ensures forall code :: code in Assign(rows) ==> Assign(rows)[code] in Names(rows)
  {
    if rows != [] {
      var n := |rows| - 1;
      AssignedNamesListed(rows[..n]);
      forall code | code in Assign(rows)
        ensures Assign(rows)[code] in Names(rows)
      {
        if code != rows[n].0 {
          var i :| 0 <= i < n && Names(rows[..n])[i] == Assign(rows[..n])[code];
          assert Names(rows)[i] == Assign(rows)[code];
        } else {
          assert Names(rows)[n] == Assign(rows)[code];
        }
      }
    }
  }

  /** The second loop only adds codes, and every name it maps a code to was
      in the map already. */
  lemma {:induction false} IsoKeepsNames(u: seq<string>, k: nat, m: map<string, string>)
    requires IsoFrom(u, k, m).Success?
    ensures m.Keys <= IsoFrom(u, k, m).value.Keys
    ensures forall code :: code in IsoFrom(u, k, m).value ==> IsoFrom(u, k, m).value[code] in m.Values
    decreases |u| - 4 * k
  {
    if 4 * k < |u| {
      if u[4 * k] !in m {
        IsoKeepsNames(u, k + 1, m);
      } else {
        var m' := m[u[4 * k + 2] := m[u[4 * k]]];
        IsoKeepsNames(u, k + 1, m');
        assert m'.Values <= m.Values;
      }
    }
  }

  /** A code the second loop adds is the ISO-3 code of a record whose ISO-2
      code is mapped. */
  lemma {:induction false} IsoAddsOnlyKnownCodes(u: seq<string>, k: nat, m: map<string, string>)
    requires IsoFrom(u, k, m).Success?
    ensures forall code :: code in IsoFrom(u, k, m).value && code !in m ==>
      exists j :: k <= j && 4 * j + 2 < |u| && u[4 * j + 2] == code && u[4 * j] in IsoFrom(u, k, m).value
    decreases |u| - 4 * k
  {
    if 4 * k < |u| {
      var r := IsoFrom(u, k, m).value;
      if u[4 * k] !in m {
        IsoAddsOnlyKnownCodes(u, k + 1, m);
      } else {
        var m' := m[u[4 * k + 2] := m[u[4 * k]]];
        IsoAddsOnlyKnownCodes(u, k + 1, m');
        IsoKeepsNames(u, k + 1, m');
        forall code | code in r && code !in m
          ensures exists j :: k <= j && 4 * j + 2 < |u| && u[4 * j + 2] == code && u[4 * j] in r
        {
          if code == u[4 * k + 2] {
            assert u[4 * k] in r;
          }
        }
      }
    }
  }

  /** Every complete record whose ISO-2 code is mapped from the start gets
      its ISO-3 code mapped. */
  lemma {:induction false} IsoMapsKnownCodes(u: seq<string>, k: nat, m: map<string, string>)
    requires IsoFrom(u, k, m).Success?
    ensures forall j :: k <= j && 4 * j + 2 < |u| && u[4 * j] in m ==> u[4 * j + 2] in IsoFrom(u, k, m).value
    decreases |u| - 4 * k
  {
    if 4 * k < |u| {
      if u[4 * k] !in m {
        IsoMapsKnownCodes(u, k + 1, m);
      } else {
        var m' := m[u[4 * k + 2] := m[u[4 * k]]];
        IsoMapsKnownCodes(u, k + 1, m');
        IsoKeepsNames(u, k + 1, m');
      }
    }
  }

  /** No complete record from `k` on has `code` as its ISO-3 code. */
  ghost predicate NotIso3From(u: seq<string>, k: nat, code: string) {
    forall j :: k <= j && 4 * j + 2 < |u| ==> u[4 * j + 2] != code
  }

  /** The map after the second loop has run over records `k` up to `i`
      (excluded), when none of them threw. */
  ghost function IsoAfter(u: seq<string>, k: nat, i: nat, m: map<string, string>): map<string, string>
    requires k <= i
    decreases i - k
  {
    if k == i || 4 * k >= |u| then m
    else if u[4 * k] in m && 4 * k + 2 < |u| then IsoAfter(u, k + 1, i, m[u[4 * k + 2] := m[u[4 * k]]])
    else IsoAfter(u, k + 1, i, m)
  }

  /** A mapped code that no later record names as its ISO-3 code keeps its
      name through the second loop. */
  lemma {:induction false} IsoKeepsValue(u: seq<string>, k: nat, m: map<string, string>, code: string)
    requires IsoFrom(u, k, m).Success?
    requires code in m && NotIso3From(u, k, code)
    ensures code in IsoFrom(u, k, m).value && IsoFrom(u, k, m).value[code] == m[code]
    decreases |u| - 4 * k
  {
    if 4 * k < |u| {
      if u[4 * k] !in m {
        IsoKeepsValue(u, k + 1, m, code);
      } else {
        IsoKeepsValue(u, k + 1, m[u[4 * k + 2] := m[u[4 * k]]], code);
      }
    }
  }

  /** The ISO-3 code of the last record that names it maps to the name its
      ISO-2 code had when the loop reached that record. */
  lemma {:induction false} IsoLastRecordWins(u: seq<string>, k: nat, m: map<string, string>, i: nat)
    requires IsoFrom(u, k, m).Success?
    requires k <= i && 4 * i + 2 < |u|
    requires u[4 * i] in IsoAfter(u, k, i, m) && NotIso3From(u, i + 1, u[4 * i + 2])
    ensures u[4 * i + 2] in IsoFrom(u, k, m).value
    ensures IsoFrom(u, k, m).value[u[4 * i + 2]] == IsoAfter(u, k, i, m)[u[4 * i]]
    decreases i - k
  {
    if k == i {
      IsoKeepsValue(u, k + 1, m[u[4 * k + 2] := m[u[4 * k]]], u[4 * i + 2]);
    } else if u[4 * k] in m {
      IsoLastRecordWins(u, k + 1, m[u[4 * k + 2] := m[u[4 * k]]], i);
    } else {
      IsoLastRecordWins(u, k + 1, m, i);
    }
  }

  /** What the two tables `Countries` returns satisfy: every ISO-2 code of
      the names file is mapped, every code maps to one of the listed names,
      an ISO-3 code is only mapped alongside its ISO-2 code, and the names are
      the file's names, trimmed, in sorted order. */
  lemma CountriesTables(countriesText: string, isoText: string, codes: map<string, string>, names: seq<string>)
    requires CountriesOf(countriesText, isoText) == Success((codes, names))
    ensures var rows := Rows(Split(countriesText));
      forall j :: 0 <= j < |rows| ==> rows[j].0 in codes
    ensures forall code :: code in codes ==> codes[code] in names
    ensures var iso := Split(isoText);
      forall code :: code in codes && code !in Assign(Rows(Split(countriesText))) ==>
        exists j :: 0 <= j && 4 * j + 2 < |iso| && iso[4 * j + 2] == code && iso[4 * j] in codes
    ensures SortedStrings(names) && multiset(names) == multiset(Names(Rows(Split(countriesText))))
  {
    var rows := Rows(Split(countriesText));
    var iso := Split(isoText);
    var iso2 := Assign(rows);
    assert IsoFrom(iso, 0, iso2) == Success(codes);
    assert names == SortStrings(Names(rows));
    AssignedCodes(rows);
    AssignedNamesListed(rows);
    IsoKeepsNames(iso, 0, iso2);
    IsoAddsOnlyKnownCodes(iso, 0, iso2);
    forall j | 0 <= j < |rows| ensures rows[j].0 in codes {
      assert rows[j].0 in iso2;
    }
    forall code | code in codes ensures codes[code] in names {
      var code' :| code' in iso2 && iso2[code'] == codes[code];
      assert codes[code] in multiset(Names(rows));
    }
  }

  /** Which name each code of the tables `Countries` returns maps to: an
      ISO-2 code that no ISO-3 token repeats maps to the name of its last
      record, and an ISO-3 code maps to the name its ISO-2 code had when
      the last record naming it was read. */
  lemma CountriesCodeNames(countriesText: string, isoText: string, codes: map<string, string>, names: seq<string>)
    requires CountriesOf(countriesText, isoText) == Success((codes, names))
    ensures var rows := Rows(Split(countriesText));
      forall j :: 0 <= j < |rows| && LastWithCode(rows, j) && NotIso3From(Split(isoText), 0, rows[j].0) ==>
        rows[j].0 in codes && codes[rows[j].0] == Trim(rows[j].1)
    ensures var iso, iso2 := Split(isoText), Assign(Rows(Split(countriesText)));
      forall i: nat :: 4 * i + 2 < |iso| && iso[4 * i] in IsoAfter(iso, 0, i, iso2) && NotIso3From(iso, i + 1, iso[4 * i + 2]) ==>
        iso[4 * i + 2] in codes && codes[iso[4 * i + 2]] == IsoAfter(iso, 0, i, iso2)[iso[4 * i]]
  {
    var rows := Rows(Split(countriesText));
    var iso := Split(isoText);
    var iso2 := Assign(rows);
    assert IsoFrom(iso, 0, iso2) == Success(codes);
    forall j | 0 <= j < |rows| && LastWithCode(rows, j) && NotIso3From(iso, 0, rows[j].0)
      ensures rows[j].0 in codes && codes[rows[j].0] == Trim(rows[j].1)
    {
      LastRecordWins(rows, j);
      IsoKeepsValue(iso, 0, iso2, rows[j].0);
    }
    forall i: nat | 4 * i + 2 < |iso| && iso[4 * i] in IsoAfter(iso, 0, i, iso2) && NotIso3From(iso, i + 1, iso[4 * i + 2])
      ensures iso[4 * i + 2] in codes && codes[iso[4 * i + 2]] == IsoAfter(iso, 0, i, iso2)[iso[4 * i]]
    {
      IsoLastRecordWins(iso, 0, iso2, i);
    }
  }

  // ---------------------------------------------------------------------
  // Provinces
  // ---------------------------------------------------------------------

  /** One country's entry in the province table: the country name as it was
      first spelled, and its provinces, every alias mapped to the official
      name. */
  datatype Territory = Territory(name: string, provinces: map<string, string>)

  /** The province table. The generator's dictionary compares country names
      with OrdinalIgnoreCase, so it is keyed here by the case-folded name. */
  type Territories = map<string, Territory>

  /** The comma-separated fields of a line of the province file, empty ones
      included: country code, alias, official name. */
  function Fields(line: string): (fields: seq<string>)
    ensures |fields| >= 1
    ensures Join(fields, ',') == line
  {
    SplitKeepEmpty(line, ',')
  }

  /** The key of a line's country in the province table. */
  function CountryKey(countries: map<string, string>, fields: seq<string>): string
    requires |fields| >= 1 && fields[0] in countries
  {
    Fold(countries[fields[0]])
  }

  /** One iteration of the loop of `Provinces`: looks the country up (an
      unknown code is a missing key), registers the alias under the official
      name (an alias already present is the generator's duplicate-province
      error, or an index error when the line is too short to report it), and
      registers the official name under itself unless it is present. */
  function AddProvince(states: Territories, countries: map<string, string>, fields: seq<string>): (r: Result<Territories>)
    requires |fields| >= 1
    ensures fields[0] !in countries ==> r == Failure(KeyNotFound)
    ensures r.Failure? ==> r.error in {KeyNotFound, IndexOutOfRange, DuplicateProvince}
    ensures r.Success? ==>
      |fields| >= 3 && fields[0] in countries &&
      var key := Fold(countries[fields[0]]);
      key in r.value && fields[1] in r.value[key].provinces && r.value[key].provinces[fields[1]] == fields[2]
  {
    if fields[0] !in countries then Failure(KeyNotFound)
    else
      var name := countries[fields[0]];
      var t := if Fold(name) in states then states[Fold(name)] else Territory(name, map[]);
      if |fields| < 2 then Failure(IndexOutOfRange)
      else if fields[1] in t.provinces then
        Failure(if |fields| < 3 then IndexOutOfRange else DuplicateProvince)
      else if |fields| < 3 then Failure(IndexOutOfRange)
      else
        var p := t.provinces[fields[1] := fields[2]];
        var p' := if fields[2] in p then p else p[fields[2] := fields[2]];
        Success(states[Fold(name) := Territory(t.name, p')])
  }

  /** The province table built from the lines of the province file, or the
      exception of the first line that throws. */
  function ProvincesOf(lines: seq<string>, countries: map<string, string>): (r: Result<Territories>)
    ensures r.Failure? ==> r.error in {KeyNotFound, IndexOutOfRange, DuplicateProvince}
  {
    if lines == [] then Success(map[])
    else match ProvincesOf(lines[..|lines| - 1], countries)
      case Failure(e) => Failure(e)
      case Success(states) => AddProvince(states, countries, Fields(lines[|lines| - 1]))
  }

  /** Once a line throws, the lines after it are not read. */
  lemma {:induction false} FirstFailureStands(lines: seq<string>, countries: map<string, string>, n: nat)
    requires n <= |lines| && ProvincesOf(lines[..n], countries).Failure?
    ensures ProvincesOf(lines, countries) == ProvincesOf(lines[..n], countries)
    decreases |lines| - n
  {
    if n < |lines| {
      var m := |lines| - 1;
      assert lines[..m][..n] == lines[..n];
      FirstFailureStands(lines[..m], countries, n);
    } else {
      assert lines[..n] == lines;
    }
  }

  /** `Provinces`: reads the province file line by line into the province
      table; `countries` is the code map `Countries` returns. */
  method Provinces(lines: seq<string>, countries: map<string, string>) returns (r: Result<Territories>)
    ensures r == ProvincesOf(lines, countries)
  {
    var states: Territories := map[];
    for i := 0 to |lines|
      invariant ProvincesOf(lines[..i], countries) == Success(states)
    {
      var province := Fields(lines[i]);
      assert lines[..i + 1][..i] == lines[..i];
      ghost var step := ProvincesOf(lines[..i + 1], countries);
      if step.Failure? {
        FirstFailureStands(lines, countries, i + 1);
      }
      if province[0] !in countries {
        return Failure(KeyNotFound);
      }
      var name := countries[province[0]];
      var country;
      if Fold(name) in states {
        country := states[Fold(name)];
      } else {
        country := Territory(name, map[]);
      }
      if |province| < 2 {
        return Failure(IndexOutOfRange);
      }
      if province[1] in country.provinces {
        return Failure(if |province| < 3 then IndexOutOfRange else DuplicateProvince);
      }
      if |province| < 3 {
        return Failure(IndexOutOfRange);
      }
      var provinces := country.provinces[province[1] := province[2]];
      if province[2] !in provinces {
        provinces := provinces[province[2] := province[2]];
      }
      states := states[Fold(name) := Territory(country.name, provinces)];
    }
    assert lines[..|lines|] == lines;
    return Success(states);
  }

  /** `after` keeps every country of `before` under the same name, and every
      alias of it with the same official name. */
  ghost predicate KeepsEntries(before: Territories, after: Territories) {
    forall key :: key in before ==>
      key in after && after[key].name == before[key].name &&
      forall a :: a in before[key].provinces ==>
        a in after[key].provinces && after[key].provinces[a] == before[key].provinces[a]
  }

  /** A line only ever adds to the table: nothing is overwritten. */
  lemma AddProvinceKeeps(states: Territories, countries: map<string, string>, fields: seq<string>)
    requires |fields| >= 1 && AddProvince(states, countries, fields).Success?
    ensures KeepsEntries(states, AddProvince(states, countries, fields).value)
  {
  }

  /** The line's alias and official name are in its country's entry, the
      alias under the official name. */
  ghost predicate Registered(states: Territories, countries: map<string, string>, fields: seq<string>) {
    |fields| >= 3 && fields[0] in countries && CountryKey(countries, fields) in states &&
    var p := states[CountryKey(countries, fields)].provinces;
    fields[1] in p && p[fields[1]] == fields[2] && fields[2] in p
  }

  /** After the table is built, every line of the file is registered in it. */
  lemma {:induction false} EveryLineRegistered(lines: seq<string>, countries: map<string, string>)
    requires ProvincesOf(lines, countries).Success?
    ensures forall j :: 0 <= j < |lines| ==>
      Registered(ProvincesOf(lines, countries).value, countries, Fields(lines[j]))
  {
    if lines != [] {
      var n := |lines| - 1;
      var before := ProvincesOf(lines[..n], countries).value;
      var after := ProvincesOf(lines, countries).value;
      EveryLineRegistered(lines[..n], countries);
      AddProvinceKeeps(before, countries, Fields(lines[n]));
      forall j | 0 <= j < n ensures Registered(after, countries, Fields(lines[j])) {
        assert lines[..n][j] == lines[j];
      }
    }
  }

  /** Two lines of one country, both long enough to have an alias. */
  ghost predicate SameCountry(countries: map<string, string>, f: seq<string>, g: seq<string>) {
    |f| >= 2 && |g| >= 2 && f[0] in countries && g[0] in countries &&
    CountryKey(countries, f) == CountryKey(countries, g)
  }

  /** A country never lists the same alias twice: the second occurrence
      throws. */
  lemma {:induction false} AliasesDistinct(lines: seq<string>, countries: map<string, string>)
    requires ProvincesOf(lines, countries).Success?
    ensures forall i, j :: 0 <= i < j < |lines| && SameCountry(countries, Fields(lines[i]), Fields(lines[j])) ==>
      Fields(lines[i])[1] != Fields(lines[j])[1]
  {
    if lines != [] {
      var n := |lines| - 1;
      var prefix := lines[..n];
      AliasesDistinct(prefix, countries);
      EveryLineRegistered(prefix, countries);
      forall i, j | 0 <= i < j < |lines| && SameCountry(countries, Fields(lines[i]), Fields(lines[j]))
        ensures Fields(lines[i])[1] != Fields(lines[j])[1]
      {
        assert prefix[i] == lines[i];
        if j < n {
          assert prefix[j] == lines[j];
        }
      }
    }
  }

  /** A line of the country stored under `key`. */
  ghost predicate OfCountry(countries: map<string, string>, f: seq<string>, key: string) {
    |f| >= 3 && f[0] in countries && CountryKey(countries, f) == key
  }

  /** Some line of the country stored under `key` explains the entry
      `a` to `official`: `a` is its alias and `official` its official name,
      or `a` is its official name and `official` is `a` itself. */
  ghost predicate FromSomeLine(countries: map<string, string>, lines: seq<string>, key: string, a: string, official: string) {
    exists j :: 0 <= j < |lines| && OfCountry(countries, Fields(lines[j]), key) &&
      ((a == Fields(lines[j])[1] && official == Fields(lines[j])[2]) ||
       (a == Fields(lines[j])[2] && official == a))
  }

  lemma FromSomeLineOfPrefix(countries: map<string, string>, lines: seq<string>, n: nat, key: string, a: string, official: string)
    requires n <= |lines| && FromSomeLine(countries, lines[..n], key, a, official)
    ensures FromSomeLine(countries, lines, key, a, official)
  {
    var j :| 0 <= j < n && OfCountry(countries, Fields(lines[..n][j]), key) &&
      ((a == Fields(lines[..n][j])[1] && official == Fields(lines[..n][j])[2]) ||
       (a == Fields(lines[..n][j])[2] && official == a));
    assert lines[..n][j] == lines[j];
  }

  /** Every country of the table is stored under its folded name, which is
      one of the country names. */
  lemma {:induction false} CountryNamesFromFile(lines: seq<string>, countries: map<string, string>)
    requires ProvincesOf(lines, countries).Success?
    ensures forall key :: key in ProvincesOf(lines, countries).value ==>
      Fold(ProvincesOf(lines, countries).value[key].name) == key &&
      ProvincesOf(lines, countries).value[key].name in countries.Values
  {
    if lines != [] {
      CountryNamesFromFile(lines[..|lines| - 1], countries);
    }
  }

  /** Every entry of the table comes from the file: each alias of a country
      is a line's alias mapped to that line's official name, or a line's
      official name mapped to itself. */
  lemma {:induction false} NothingInvented(lines: seq<string>, countries: map<string, string>)
    requires ProvincesOf(lines, countries).Success?
    ensures var states := ProvincesOf(lines, countries).value;
      forall key, a :: key in states && a in states[key].provinces ==>
        FromSomeLine(countries, lines, key, a, states[key].provinces[a])
  {
    if lines != [] {
      var n := |lines| - 1;
      var prefix := lines[..n];
      var before := ProvincesOf(prefix, countries).value;
      var after := ProvincesOf(lines, countries).value;
      var f := Fields(lines[n]);
      NothingInvented(prefix, countries);
      AddProvinceKeeps(before, countries, f);
      forall key, a | key in after && a in after[key].provinces
        ensures FromSomeLine(countries, lines, key, a, after[key].provinces[a])
      {
        if key in before && a in before[key].provinces {
          FromSomeLineOfPrefix(countries, lines, n, key, a, after[key].provinces[a]);
        } else {
          AddProvinceNew(before, countries, f, key, a);
          assert Fields(lines[n]) == f;
        }
      }
    }
  }

  /** An entry that `AddProvince` adds comes from the line it reads: the
      line's alias mapped to its official name, or the official name mapped
      to itself. */
  lemma AddProvinceNew(before: Territories, countries: map<string, string>, f: seq<string>, key: string, a: string)
    requires |f| >= 1 && AddProvince(before, countries, f).Success?
    requires key in AddProvince(before, countries, f).value
    requires a in AddProvince(before, countries, f).value[key].provinces
    requires !(key in before && a in before[key].provinces)
    ensures var official := AddProvince(before, countries, f).value[key].provinces[a];
      OfCountry(countries, f, key) &&
      ((a == f[1] && official == f[2]) || (a == f[2] && official == a))
  {
  }

  /** An official name that no line of its country uses as an alias is
      registered under itself, so looking it up gives it back. */
  lemma OfficialNameMapsToItself(lines: seq<string>, countries: map<string, string>, j: nat)
    requires ProvincesOf(lines, countries).Success?
    requires j < |lines| && |Fields(lines[j])| >= 3
    requires forall i :: 0 <= i < |lines| && SameCountry(countries, Fields(lines[i]), Fields(lines[j])) ==>
      Fields(lines[i])[1] != Fields(lines[j])[2]
    ensures var states := ProvincesOf(lines, countries).value;
      var f := Fields(lines[j]);
      Registered(states, countries, f) && states[CountryKey(countries, f)].provinces[f[2]] == f[2]
  {
    var states := ProvincesOf(lines, countries).value;
    var f := Fields(lines[j]);
    EveryLineRegistered(lines, countries);
    NothingInvented(lines, countries);
    assert Registered(states, countries, f);
    var key := CountryKey(countries, f);
    assert FromSomeLine(countries, lines, key, f[2], states[key].provinces[f[2]]);
    var i :| 0 <= i < |lines| && OfCountry(countries, Fields(lines[i]), key) &&
      ((f[2] == Fields(lines[i])[1] && states[key].provinces[f[2]] == Fields(lines[i])[2]) ||
       (f[2] == Fields(lines[i])[2] && states[key].provinces[f[2]] == f[2]));
    assert SameCountry(countries, Fields(lines[i]), f);
  }

  // ---------------------------------------------------------------------
  // Currencies
  // ---------------------------------------------------------------------

  /** A `SortedDictionary<string, List<string>>`: its keys in enumeration
      order, and its entries. */
  datatype SortedLists = SortedLists(keys: seq<string>, entries: map<string, seq<string>>)

  ghost predicate ValidLists(d: SortedLists) {
    StrictlySorted(d.keys) && forall key :: key in d.entries <==> key in d.keys
  }

  /** Appends `value` to the list under `key`, creating an empty list first
      when the key is new. */
  function Append(d: SortedLists, key: string, value: string): (r: SortedLists)
    requires ValidLists(d)
    ensures ValidLists(r)
  {
    if key in d.entries then SortedLists(d.keys, d.entries[key := d.entries[key] + [value]])
    else SortedLists(AddSorted(d.keys, key), d.entries[key := [value]])
  }

  /** The two results of `Currencies`: the sorted set of currency codes, and
      the sorted dictionary holding, under each currency code, the countries
      that use it and, under each country code, its currencies. */
  datatype CurrencyTables = CurrencyTables(currencies: seq<string>, lists: SortedLists)

  ghost predicate ValidTables(tables: CurrencyTables) {
    StrictlySorted(tables.currencies) && ValidLists(tables.lists)
  }

  /** A record is skipped when its currency is empty or a lone comma. A
      token is never empty, since splitting drops empty tokens; the comma is
      the separator the reader finds at offset 2 when the record's value was
      an empty JSON string. */
  predicate Accepted(row: (string, string)) {
    Trim(row.1) != "" && Trim(row.1) != ","
  }

  /** One iteration of the loop of `Currencies`. The currency's list gets the
      trimmed country code; the country's list, under the untrimmed code,
      gets the currency. */
  function AddCurrency(tables: CurrencyTables, row: (string, string)): (r: CurrencyTables)
    requires ValidTables(tables)
    ensures ValidTables(r)
  {
    if !Accepted(row) then tables
    else
      var c := Trim(row.1);
      CurrencyTables(AddSorted(tables.currencies, c),
                     Append(Append(tables.lists, c, Trim(row.0)), row.0, c))
  }

  function CurrencyTablesOf(rows: seq<(string, string)>): (r: CurrencyTables)
    ensures ValidTables(r)
  {
    if rows == [] then CurrencyTables([], SortedLists([], map[]))
    else AddCurrency(CurrencyTablesOf(rows[..|rows| - 1]), rows[|rows| - 1])
  }

  /** What `Currencies` computes from the currency file. */
  function CurrenciesOf(text: string): (r: CurrencyTables)
    ensures ValidTables(r)
  {
    CurrencyTablesOf(Rows(Split(text)))
  }

  /** The tokens splitting leaves of one record of a JSON object of string
      values: the key, the white space after the colon, the value unless it
      is empty, and the separator unless the record is the last. */
  function RecordTokens(record: (string, string), last: bool): (t: seq<string>)
    ensures |t| == 2 + (if record.1 == "" then 0 else 1) + (if last then 0 else 1)
  {
    [record.0, " "] + (if record.1 == "" then [] else [record.1]) + (if last then [] else [", "])
  }

  /** The tokens of a whole JSON object of string values. */
  function Tokens(records: seq<(string, string)>): seq<string> {
    if records == [] then [] else RecordTokens(records[0], |records| == 1) + Tokens(records[1..])
  }

  /** The records whose value is not empty, in order. */
  function NonEmptyValues(records: seq<(string, string)>): (r: seq<(string, string)>)
    ensures |r| <= |records|
  {
    if records == [] then []
    else (if records[0].1 == "" then [] else [records[0]]) + NonEmptyValues(records[1..])
  }

  /** The evidently intended reader: a separator where a value is expected
      marks a record with an empty value, three tokens long, and the next
      record starts right after it. */
  function Realigned(t: seq<string>): (rows: seq<(string, string)>)
    decreases |t|
  {
    if |t| < 3 then []
    else if t[2] == ", " then Realigned(t[3..])
    else [(t[0], t[2])] + (if |t| < 4 then [] else Realigned(t[4..]))
  }

  /** The realigned reader returns exactly the records with a value, as
      long as no value is the separator itself. */
  lemma {:induction false} RealignedReadsRecords(records: seq<(string, string)>)
    requires forall k :: 0 <= k < |records| ==> records[k].1 != ", "
    ensures Realigned(Tokens(records)) == NonEmptyValues(records)
  {
    if records != [] {
      var rest := records[1..];
      RealignedReadsRecords(rest);
      var head := RecordTokens(records[0], |records| == 1);
      var t := head + Tokens(rest);
      if |records| == 1 {
        assert Tokens(rest) == [] && t == head;
      } else if records[0].1 == "" {
        assert t[2] == ", " && t[3..] == Tokens(rest);
      } else {
        assert t[2] == records[0].1 && t[4..] == Tokens(rest);
      }
    }
  }

  /** Read realigned, the currency set holds the currency of every record
      with a value, whatever empty values come before it. */
  lemma RealignedCurrencySet(records: seq<(string, string)>)
    requires forall k :: 0 <= k < |records| ==> records[k].1 != ", "
    ensures forall y :: y in CurrencyTablesOf(Realigned(Tokens(records))).currencies <==> HasCurrency(NonEmptyValues(records), y)
  {
    RealignedReadsRecords(records);
    CurrencySetFromFile(NonEmptyValues(records));
  }

  /** The reader as written, on the tokens of that file (its split, by `CurrencyJson.EmptyCurrencyFile`):
      after the empty value of AQ every record starts one token earlier
      than the reader expects, so it reads (" ", ", ") and skips it, and
      neither BDT nor EUR is listed. The realigned reader lists both. */
  lemma EmptyCurrencyShiftsRecords()
    ensures Tokens([("AQ", ""), ("BD", "BDT"), ("BE", "EUR")]) ==
      ["AQ", " ", ", ", "BD", " ", "BDT", ", ", "BE", " ", "EUR"]
    ensures CurrencyTablesOf(Rows(["AQ", " ", ", ", "BD", " ", "BDT", ", ", "BE", " ", "EUR"])).currencies == []
    ensures Realigned(["AQ", " ", ", ", "BD", " ", "BDT", ", ", "BE", " ", "EUR"]) == [("BD", "BDT"), ("BE", "EUR")]
  {
    var t := ["AQ", " ", ", ", "BD", " ", "BDT", ", ", "BE", " ", "EUR"];
    assert Tokens([("BE", "EUR")]) == ["BE", " ", "EUR"];
    assert Tokens([("BD", "BDT"), ("BE", "EUR")]) == ["BD", " ", "BDT", ", "] + Tokens([("BE", "EUR")]);
    var rows := Rows(t);
    assert rows == [("AQ", ", "), (" ", ", ")];
    assert Trim(", ") == Trim(",") == ",";
    assert rows[..1] == [("AQ", ", ")];
    assert Realigned(t[3..]) == [("BD", "BDT")] + Realigned(t[7..]);
  }

  lemma CurrencyStep(rows: seq<(string, string)>, k: nat)
    requires k < |rows|
    ensures CurrencyTablesOf(rows[..k + 1]) == AddCurrency(CurrencyTablesOf(rows[..k]), rows[k])
  {
    assert rows[..k + 1][..k] == rows[..k];
  }

  lemma CurrencyLoopEnd(n: nat, k: nat)
    requires k <= (n + 1) / 4 && n <= 4 * k + 2
    ensures k == (n + 1) / 4
  {
  }

  /** `Currencies`: reads every complete record of the currency file; it
      never reads past the end of the tokens, so it never throws. */
  method Currencies(text: string) returns (tables: CurrencyTables)
    ensures tables == CurrenciesOf(text)
  {
    var countries := Split(text);
    ghost var rows := Rows(countries);
    var currencies: seq<string> := [];
    var list := SortedLists([], map[]);
    var k := 0;
    while 4 * k < |countries| - 2
      invariant 0 <= k <= |rows|
      invariant CurrencyTables(currencies, list) == CurrencyTablesOf(rows[..k])
    {
      CurrencyStep(rows, k);
      assert rows[k] == (countries[4 * k], countries[4 * k + 2]);
      var c := Trim(countries[4 * k + 2]);
      if c == "" || c == "," {
        k := k + 1;
        continue;
      }
      currencies := AddSorted(currencies, c);
      list := Append(list, c, Trim(countries[4 * k]));
      list := Append(list, countries[4 * k], c);
      k := k + 1;
    }
    CurrencyLoopEnd(|countries|, k);
    assert rows[..k] == rows;
    tables := CurrencyTables(currencies, list);
  }

  /** Appending adds exactly one element to one list. */
  lemma AppendContents(d: SortedLists, key: string, value: string)
    requires ValidLists(d)
    ensures var r := Append(d, key, value);
      (forall k :: k in d.entries ==> k in r.entries) &&
      (forall k :: k in r.entries ==> k in d.entries || k == key) &&
      (forall k :: k in r.entries && k in d.entries ==> r.entries[k] == d.entries[k] + (if k == key then [value] else [])) &&
      (key !in d.entries ==> r.entries[key] == [value])
  {
  }

  /** One record adds its currency, if accepted, to the currency set. */
  lemma AddCurrencySet(tables: CurrencyTables, row: (string, string))
    requires ValidTables(tables)
    ensures forall y :: y in AddCurrency(tables, row).currencies <==>
      y in tables.currencies || (Accepted(row) && y == Trim(row.1))
  {
  }

  /** One record, if accepted, adds the trimmed country code to its
      currency's list and the currency to its country code's list, and
      nothing else. */
  lemma AddCurrencyLists(tables: CurrencyTables, row: (string, string))
    requires ValidTables(tables)
    ensures var e := tables.lists.entries;
      var e' := AddCurrency(tables, row).lists.entries;
      (forall key :: key in e ==> key in e' && e[key] <= e'[key]) &&
      (Accepted(row) ==> RecordListed(e', row)) &&
      ((forall key :: key in e ==> |e[key]| > 0) ==> forall key :: key in e' ==> |e'[key]| > 0) &&
      forall key, x :: key in e' && x in e'[key] ==>
        (key in e && x in e[key]) ||
        (Accepted(row) && ((key == Trim(row.1) && x == Trim(row.0)) || (key == row.0 && x == Trim(row.1))))
  {
    if Accepted(row) {
      var c := Trim(row.1);
      var d1 := Append(tables.lists, c, Trim(row.0));
      AppendContents(tables.lists, c, Trim(row.0));
      AppendContents(d1, row.0, c);
      var e, e1 := tables.lists.entries, d1.entries;
      var e' := AddCurrency(tables, row).lists.entries;
      assert e' == Append(d1, row.0, c).entries;
      assert Trim(row.0) in e1[c];
      assert c in e'[row.0];
      forall key | key in e ensures key in e' && e[key] <= e'[key] {
        assert e[key] <= e1[key];
      }
      forall key, x | key in e' && x in e'[key]
        ensures (key in e && x in e[key]) || (key == c && x == Trim(row.0)) || (key == row.0 && x == c)
      {
        if key in e1 && x in e1[key] {
          if !(key in e && x in e[key]) {
            assert key == c && x == Trim(row.0);
          }
        }
      }
    }
  }

  /** Some record read has the currency `y`. */
  ghost predicate HasCurrency(rows: seq<(string, string)>, y: string) {
    exists j :: 0 <= j < |rows| && Accepted(rows[j]) && Trim(rows[j].1) == y
  }

  lemma HasCurrencyLast(rows: seq<(string, string)>, y: string)
    requires rows != []
    ensures var n := |rows| - 1;
      HasCurrency(rows, y) <==> HasCurrency(rows[..n], y) || (Accepted(rows[n]) && Trim(rows[n].1) == y)
  {
    var n := |rows| - 1;
    if HasCurrency(rows[..n], y) {
      var j :| 0 <= j < n && Accepted(rows[..n][j]) && Trim(rows[..n][j].1) == y;
      assert rows[j] == rows[..n][j];
    }
    if HasCurrency(rows, y) {
      var j :| 0 <= j < |rows| && Accepted(rows[j]) && Trim(rows[j].1) == y;
      if j < n { assert rows[..n][j] == rows[j]; }
    }
  }

  /** The currency set holds exactly the currencies of the records read. */
  lemma {:induction false} CurrencySetFromFile(rows: seq<(string, string)>)
    ensures forall y :: y in CurrencyTablesOf(rows).currencies <==> HasCurrency(rows, y)
  {
    if rows != [] {
      var n := |rows| - 1;
      CurrencySetFromFile(rows[..n]);
      AddCurrencySet(CurrencyTablesOf(rows[..n]), rows[n]);
      forall y ensures y in CurrencyTablesOf(rows).currencies <==> HasCurrency(rows, y) {
        HasCurrencyLast(rows, y);
      }
    }
  }

  /** Both directions of a record read: its currency lists the trimmed
      country code, and its country code lists the currency. */
  ghost predicate RecordListed(e: map<string, seq<string>>, row: (string, string)) {
    Trim(row.1) in e && Trim(row.0) in e[Trim(row.1)] &&
    row.0 in e && Trim(row.1) in e[row.0]
  }

  lemma RecordListedKept(e: map<string, seq<string>>, e': map<string, seq<string>>, row: (string, string))
    requires RecordListed(e, row)
    requires forall key :: key in e ==> key in e' && e[key] <= e'[key]
    ensures RecordListed(e', row)
  {
    assert e[Trim(row.1)] <= e'[Trim(row.1)];
    assert e[row.0] <= e'[row.0];
  }

  lemma {:induction false} RecordsListed(rows: seq<(string, string)>)
    ensures forall j :: 0 <= j < |rows| && Accepted(rows[j]) ==>
      RecordListed(CurrencyTablesOf(rows).lists.entries, rows[j])
  {
    if rows != [] {
      var n := |rows| - 1;
      var prefix := rows[..n];
      var before := CurrencyTablesOf(prefix);
      RecordsListed(prefix);
      AddCurrencyLists(before, rows[n]);
      forall j | 0 <= j < n && Accepted(rows[j])
        ensures RecordListed(CurrencyTablesOf(rows).lists.entries, rows[j])
      {
        assert prefix[j] == rows[j];
        RecordListedKept(before.lists.entries, CurrencyTablesOf(rows).lists.entries, rows[j]);
      }
    }
  }

  /** Nothing else is listed: every element of every list comes from a
      record, in one direction or the other, and no list is empty. */
  ghost predicate ListedByRecord(rows: seq<(string, string)>, key: string, x: string) {
    exists j :: 0 <= j < |rows| && Accepted(rows[j]) &&
      ((Trim(rows[j].1) == key && Trim(rows[j].0) == x) || (rows[j].0 == key && Trim(rows[j].1) == x))
  }

  lemma ListedByPrefix(rows: seq<(string, string)>, n: nat, key: string, x: string)
    requires n <= |rows| && ListedByRecord(rows[..n], key, x)
    ensures ListedByRecord(rows, key, x)
  {
    var j :| 0 <= j < n && Accepted(rows[..n][j]) &&
      ((Trim(rows[..n][j].1) == key && Trim(rows[..n][j].0) == x) ||
       (rows[..n][j].0 == key && Trim(rows[..n][j].1) == x));
    assert rows[..n][j] == rows[j];
  }

  lemma {:induction false} ListsFromRecords(rows: seq<(string, string)>)
    ensures forall key :: key in CurrencyTablesOf(rows).lists.entries ==>
      |CurrencyTablesOf(rows).lists.entries[key]| > 0
    ensures forall key, x ::
      key in CurrencyTablesOf(rows).lists.entries && x in CurrencyTablesOf(rows).lists.entries[key] ==>
      ListedByRecord(rows, key, x)
  {
    if rows != [] {
      var n := |rows| - 1;
      var before := CurrencyTablesOf(rows[..n]);
      var e := CurrencyTablesOf(rows).lists.entries;
      ListsFromRecords(rows[..n]);
      AddCurrencyLists(before, rows[n]);
      forall key, x | key in e && x in e[key] ensures ListedByRecord(rows, key, x) {
        if key in before.lists.entries && x in before.lists.entries[key] {
          ListedByPrefix(rows, n, key, x);
        }
      }
    }
  }

  // ---------------------------------------------------------------------
  // The currency tables as the generator emits them
  // ---------------------------------------------------------------------

  /** The keys of length three, in order. */
  function ThreeLetterKeys(keys: seq<string>): (r: seq<string>)
    ensures forall y :: y in r <==> y in keys && |y| == 3
  {
    if keys == [] then []
    else
      var rest := ThreeLetterKeys(keys[1..]);
      assert forall y :: y in keys <==> y == keys[0] || y in keys[1..] by {
        assert keys == [keys[0]] + keys[1..];
      }
      if |keys[0]| == 3 then [keys[0]] + rest else rest
  }

  /** Filtering keeps the order. */
  lemma {:induction false} ThreeLetterKeysSorted(keys: seq<string>)
    requires StrictlySorted(keys)
    ensures StrictlySorted(ThreeLetterKeys(keys))
  {
    if keys != [] {
      ThreeLetterKeysSorted(keys[1..]);
      var rest := ThreeLetterKeys(keys[1..]);
      forall y | y in rest ensures Below(keys[0], y) {
        var k :| 0 <= k < |keys[1..]| && keys[1..][k] == y;
        assert keys[k + 1] == y;
      }
      assert forall j :: 0 <= j < |rest| ==> rest[j] in rest;
    }
  }

  /** `ElaborateCurrency2Country`: the rows of the currency-to-countries
      table. Each key of length three, in key order, with its list; the row's
      position is what the currency's ordinal is used to index. */
  function Currency2Country(d: SortedLists): (rows: seq<(string, seq<string>)>)
    requires ValidLists(d)
    ensures var keys := ThreeLetterKeys(d.keys);
      |rows| == |keys| && forall i :: 0 <= i < |rows| ==> rows[i] == (keys[i], d.entries[keys[i]])
  {
    var keys := ThreeLetterKeys(d.keys);
    seq(|keys|, i requires 0 <= i < |keys| => (keys[i], d.entries[keys[i]]))
  }

  /** `ElaborateCountry2Currency`: every key of length two, with the single
      element of its list; a list of any other length makes `Single` throw. */
  function Country2Currency(d: SortedLists): (r: Result<map<string, string>>)
    requires ValidLists(d)
    ensures r.Success? <==> forall key :: key in d.entries && |key| == 2 ==> |d.entries[key]| == 1
    ensures r.Failure? ==> r.error == InvalidOperation
    ensures r.Success? ==> forall key :: key in r.value <==> key in d.entries && |key| == 2
    ensures r.Success? ==> forall key :: key in r.value ==> d.entries[key] == [r.value[key]]
  {
    if forall key :: key in d.entries && |key| == 2 ==> |d.entries[key]| == 1 then
      Success(map key | key in d.entries && |key| == 2 :: d.entries[key][0])
    else Failure(InvalidOperation)
  }

  /** When the table of country currencies is emitted, each two-letter
      country code of the currency file is mapped to its record's currency. */
  lemma CountryCurrencyFromFile(text: string, j: nat)
    requires var rows := Rows(Split(text));
      j < |rows| && Accepted(rows[j]) && |rows[j].0| == 2 &&
      Country2Currency(CurrenciesOf(text).lists).Success?
    ensures var rows := Rows(Split(text));
      var table := Country2Currency(CurrenciesOf(text).lists).value;
      rows[j].0 in table && table[rows[j].0] == Trim(rows[j].1)
  {
    var rows := Rows(Split(text));
    RecordsListed(rows);
    assert RecordListed(CurrenciesOf(text).lists.entries, rows[j]);
  }

  /** A record of the currency file gives country `code` the currency
      `currency`. */
  ghost predicate UsesCurrency(rows: seq<(string, string)>, currency: string, code: string) {
    exists j :: 0 <= j < |rows| && Accepted(rows[j]) && Trim(rows[j].1) == currency && Trim(rows[j].0) == code
  }

  /** Every currency code has three letters and no country code does. */
  ghost predicate CodeLengthsApart(rows: seq<(string, string)>) {
    forall j :: 0 <= j < |rows| && Accepted(rows[j]) ==> |Trim(rows[j].1)| == 3 && |rows[j].0| != 3
  }

  /** Then each code the table of country currencies maps comes from a
      record with that code and that currency. */
  lemma CountryCurrencyFromRecord(rows: seq<(string, string)>, code: string)
    requires CodeLengthsApart(rows)
    requires Country2Currency(CurrencyTablesOf(rows).lists).Success?
    requires code in Country2Currency(CurrencyTablesOf(rows).lists).value
    ensures exists j ::
              0 <= j < |rows| && Accepted(rows[j]) && rows[j].0 == code &&
              Trim(rows[j].1) == Country2Currency(CurrencyTablesOf(rows).lists).value[code]
  {
    var m := Country2Currency(CurrencyTablesOf(rows).lists).value;
    ListsFromRecords(rows);
    assert ListedByRecord(rows, code, m[code]);
    var j :| 0 <= j < |rows| && Accepted(rows[j]) &&
      ((Trim(rows[j].1) == code && Trim(rows[j].0) == m[code]) || (rows[j].0 == code && Trim(rows[j].1) == m[code]));
    assert |code| == 2 && |Trim(rows[j].1)| == 3;
  }

  /** Then the three-letter keys of the dictionary are the currency set. */
  lemma ThreeLetterKeysAreCurrencies(rows: seq<(string, string)>)
    requires CodeLengthsApart(rows)
    ensures ThreeLetterKeys(CurrencyTablesOf(rows).lists.keys) == CurrencyTablesOf(rows).currencies
  {
    var tables := CurrencyTablesOf(rows);
    var e := tables.lists.entries;
    var keys := ThreeLetterKeys(tables.lists.keys);
    ThreeLetterKeysSorted(tables.lists.keys);
    CurrencySetFromFile(rows);
    RecordsListed(rows);
    ListsFromRecords(rows);
    forall y ensures y in keys <==> y in tables.currencies {
      if y in keys {
        var x := e[y][0];
        assert x in e[y];
        assert ListedByRecord(rows, y, x);
      }
      if y in tables.currencies {
        assert HasCurrency(rows, y);
        var j :| 0 <= j < |rows| && Accepted(rows[j]) && Trim(rows[j].1) == y;
        assert RecordListed(e, rows[j]);
      }
    }
    StrictlySortedUnique(keys, tables.currencies);
  }

  /** And the list under a three-letter key holds the countries of the
      records with that currency. */
  lemma CurrencyListsFromFile(rows: seq<(string, string)>, currency: string)
    requires CodeLengthsApart(rows)
    requires currency in CurrencyTablesOf(rows).lists.entries && |currency| == 3
    ensures forall code :: code in CurrencyTablesOf(rows).lists.entries[currency] <==> UsesCurrency(rows, currency, code)
  {
    var e := CurrencyTablesOf(rows).lists.entries;
    RecordsListed(rows);
    ListsFromRecords(rows);
    forall code ensures code in e[currency] <==> UsesCurrency(rows, currency, code) {
      if code in e[currency] {
        assert ListedByRecord(rows, currency, code);
      }
      if UsesCurrency(rows, currency, code) {
        var j :| 0 <= j < |rows| && Accepted(rows[j]) && Trim(rows[j].1) == currency && Trim(rows[j].0) == code;
        assert RecordListed(e, rows[j]);
      }
    }
  }

  /** The currency enum declares the currency set in order, so a currency's
      ordinal is its position there. When every currency code has three
      letters and no country code does, the rows of the currency-to-countries
      table are the currencies in that same order, each row listing the
      countries of the records with that currency. */
  lemma CurrencyRowsAlign(text: string)
    requires CodeLengthsApart(Rows(Split(text)))
    ensures var tables := CurrenciesOf(text);
      var table := Currency2Country(tables.lists);
      |table| == |tables.currencies| &&
      forall i :: 0 <= i < |table| ==>
        table[i].0 == tables.currencies[i] &&
        forall code :: code in table[i].1 <==> UsesCurrency(Rows(Split(text)), table[i].0, code)
  {
    var rows := Rows(Split(text));
    var tables := CurrencyTablesOf(rows);
    ThreeLetterKeysAreCurrencies(rows);
    var table := Currency2Country(tables.lists);
    forall i | 0 <= i < |table|
      ensures forall code :: code in table[i].1 <==> UsesCurrency(rows, table[i].0, code)
    {
      assert table[i].0 in ThreeLetterKeys(tables.lists.keys);
      CurrencyListsFromFile(rows, table[i].0);
    }
  }

  // ---------------------------------------------------------------------
  // Continents
  // ---------------------------------------------------------------------

  /** The non-empty lines of the continent file. */
  function ContinentLines(text: string): seq<string> {
    SplitOn(text, {'\r', '\n'})
  }

  /** The non-empty comma-separated fields of a line: code, then name. */
  function ContinentFields(line: string): seq<string> {
    SplitOn(line, {','})
  }

  /** One iteration of the loop of `Continents`: the code is added under the
      name, then the name under itself; adding a key that is present throws,
      and so does a line with fewer than two fields. */
  function AddContinent(m: map<string, string>, line: string): (r: Result<map<string, string>>)
    ensures r.Failure? ==> r.error == if |ContinentFields(line)| < 2 then IndexOutOfRange else DuplicateKey
  {
    var f := ContinentFields(line);
    if |f| < 2 then Failure(IndexOutOfRange)
    else if f[0] in m then Failure(DuplicateKey)
    else if f[1] in m[f[0] := f[1]] then Failure(DuplicateKey)
    else Success(m[f[0] := f[1]][f[1] := f[1]])
  }

  /** The continent map built from the lines, or the exception of the first
      line that throws. */
  function ContinentsFrom(lines: seq<string>): (r: Result<map<string, string>>)
    ensures r.Failure? ==> r.error in {IndexOutOfRange, DuplicateKey}
  {
    if lines == [] then Success(map[])
    else match ContinentsFrom(lines[..|lines| - 1])
      case Failure(e) => Failure(e)
      case Success(m) => AddContinent(m, lines[|lines| - 1])
  }

  /** Every line adds two keys, its code and its name. */
  lemma {:induction false} ContinentCount(lines: seq<string>)
    requires ContinentsFrom(lines).Success?
    ensures |ContinentsFrom(lines).value| == 2 * |lines|
  {
    if lines != [] {
      var n := |lines| - 1;
      ContinentCount(lines[..n]);
      var m := ContinentsFrom(lines[..n]).value;
      var f := ContinentFields(lines[n]);
      assert |m[f[0] := f[1]]| == |m| + 1;
    }
  }

  lemma {:induction false} FirstContinentFailureStands(lines: seq<string>, n: nat)
    requires n <= |lines| && ContinentsFrom(lines[..n]).Failure?
    ensures ContinentsFrom(lines) == ContinentsFrom(lines[..n])
    decreases |lines| - n
  {
    if n < |lines| {
      var m := |lines| - 1;
      assert lines[..m][..n] == lines[..n];
      FirstContinentFailureStands(lines[..m], n);
    } else {
      assert lines[..n] == lines;
    }
  }

  /** `Continents`: the sorted dictionary of continent codes and names. */
  method Continents(text: string) returns (r: Result<map<string, string>>)
    ensures r == ContinentsFrom(ContinentLines(text))
  {
    var continents := ContinentLines(text);
    var m: map<string, string> := map[];
    for i := 0 to |continents|
      invariant ContinentsFrom(continents[..i]) == Success(m)
    {
      assert continents[..i + 1][..i] == continents[..i];
      if ContinentsFrom(continents[..i + 1]).Failure? {
        FirstContinentFailureStands(continents, i + 1);
      }
      var line := ContinentFields(continents[i]);
      if |line| < 2 {
        return Failure(IndexOutOfRange);
      }
      if line[0] in m {
        return Failure(DuplicateKey);
      }
      m := m[line[0] := line[1]];
      if line[1] in m {
        return Failure(DuplicateKey);
      }
      m := m[line[1] := line[1]];
    }
    assert continents[..|continents|] == continents;
    return Success(m);
  }

  /** Line `j`'s code maps to its name and its name to itself, and the two
      differ. */
  ghost predicate ContinentListed(m: map<string, string>, lines: seq<string>, j: int) {
    0 <= j < |lines| &&
    var f := ContinentFields(lines[j]);
    |f| >= 2 && f[0] != f[1] && f[0] in m && m[f[0]] == f[1] && f[1] in m && m[f[1]] == f[1]
  }

  /** `key` is the code or the name of a line. */
  ghost predicate OnLine(f: seq<string>, key: string) {
    |f| >= 2 && (key == f[0] || key == f[1])
  }

  /** A successful line adds its code and its name, both new, and changes
      nothing else. */
  lemma AddContinentContents(m: map<string, string>, lines: seq<string>)
    requires lines != [] && AddContinent(m, lines[|lines| - 1]).Success?
    ensures var m' := AddContinent(m, lines[|lines| - 1]).value;
      var f := ContinentFields(lines[|lines| - 1]);
      ContinentListed(m', lines, |lines| - 1) && f[0] !in m && f[1] !in m &&
      (forall key :: key in m' <==> key in m || OnLine(f, key)) &&
      forall key :: key in m ==> m'[key] == m[key]
  {
  }

  lemma {:induction false} ContinentsListed(lines: seq<string>)
    requires ContinentsFrom(lines).Success?
    ensures forall j :: 0 <= j < |lines| ==> ContinentListed(ContinentsFrom(lines).value, lines, j)
  {
    if lines != [] {
      var n := |lines| - 1;
      var prefix := lines[..n];
      var m := ContinentsFrom(prefix).value;
      ContinentsListed(prefix);
      AddContinentContents(m, lines);
      forall j | 0 <= j < n ensures ContinentListed(ContinentsFrom(lines).value, lines, j) {
        assert ContinentListed(m, prefix, j);
        assert prefix[j] == lines[j];
      }
    }
  }

  /** Every key of the table is the code or the name of a line. */
  lemma {:induction false} ContinentKeysFromLines(lines: seq<string>)
    requires ContinentsFrom(lines).Success?
    ensures forall key :: key in ContinentsFrom(lines).value ==>
      exists j :: 0 <= j < |lines| && OnLine(ContinentFields(lines[j]), key)
  {
    if lines != [] {
      var n := |lines| - 1;
      var prefix := lines[..n];
      var m := ContinentsFrom(prefix).value;
      ContinentKeysFromLines(prefix);
      AddContinentContents(m, lines);
      forall key | key in ContinentsFrom(lines).value
        ensures exists j :: 0 <= j < |lines| && OnLine(ContinentFields(lines[j]), key)
      {
        if key in m {
          var j :| 0 <= j < n && OnLine(ContinentFields(prefix[j]), key);
          assert prefix[j] == lines[j];
        }
      }
    }
  }

  /** No code or name comes from two lines. */
  lemma {:induction false} ContinentKeysDistinct(lines: seq<string>)
    requires ContinentsFrom(lines).Success?
    ensures forall i, j, key :: 0 <= i < j < |lines| && OnLine(ContinentFields(lines[i]), key) ==>
      !OnLine(ContinentFields(lines[j]), key)
  {
    if lines != [] {
      var n := |lines| - 1;
      var prefix := lines[..n];
      var m := ContinentsFrom(prefix).value;
      ContinentKeysDistinct(prefix);
      ContinentsListed(prefix);
      AddContinentContents(m, lines);
      forall i, j, key | 0 <= i < j < |lines| && OnLine(ContinentFields(lines[i]), key)
        ensures !OnLine(ContinentFields(lines[j]), key)
      {
        assert prefix[i] == lines[i];
        if j < n {
          assert prefix[j] == lines[j];
        } else {
          assert ContinentListed(m, prefix, i);
          assert key in m;
          var f := ContinentFields(lines[n]);
          assert j == n && f[0] !in m && f[1] !in m;
        }
      }
    }
  }

  /** So every name the table maps a code to is itself a key mapped to
      itself: each alias the generator emits names a declared continent. */
  lemma ContinentNamesDeclared(text: string)
    requires ContinentsFrom(ContinentLines(text)).Success?
    ensures var m := ContinentsFrom(ContinentLines(text)).value;
      forall key :: key in m ==> m[key] in m && m[m[key]] == m[key]
  {
    var lines := ContinentLines(text);
    var m := ContinentsFrom(lines).value;
    ContinentsListed(lines);
    ContinentKeysFromLines(lines);
    forall key | key in m ensures m[key] in m && m[m[key]] == m[key] {
      var j :| 0 <= j < |lines| && OnLine(ContinentFields(lines[j]), key);
      assert ContinentListed(m, lines, j);
      var f := ContinentFields(lines[j]);
      assert m[key] == f[1] && f[1] in m && m[f[1]] == f[1];
    }
  }
}
