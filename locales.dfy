/** The lookups of the generated `Locales` class (Locales.cs; Postal.cs
    declares the same four), and how the static tables they read are
    emitted from what the generator computes. */
module Locales {
  import opened Outcomes
  import opened Text
  import opened LocaleData

  /** The static tables of the generated class. A country is the name of
      the enum member written in the table, a currency is its ordinal. Each
      country's province dictionary compares with OrdinalIgnoreCase, so it
      is keyed here by the case-folded alias. */
  datatype Tables = Tables(
    provinces: map<string, map<string, string>>,
    currency2Country: seq<seq<string>>,
    country2Currency: map<string, nat>)

  // ---------------------------------------------------------------------
  // The four lookups
  // ---------------------------------------------------------------------

  /** `States`: the official names in the country's province dictionary,
      or a missing key. */
  function States(t: Tables, country: string): (r: Result<set<string>>)
    ensures r.Success? <==> country in t.provinces
    ensures r.Failure? ==> r.error == KeyNotFound
  {
    if country in t.provinces then Success(t.provinces[country].Values) else Failure(KeyNotFound)
  }

  /** `State`: the official name of a state, looked up in any letter case;
      a missing country or state is a missing key. */
  function State(t: Tables, country: string, stateName: string): (r: Result<string>)
    ensures r.Success? <==> country in t.provinces && Fold(stateName) in t.provinces[country]
    ensures r.Failure? ==> r.error == KeyNotFound
  {
    if country !in t.provinces then Failure(KeyNotFound)
    else if Fold(stateName) !in t.provinces[country] then Failure(KeyNotFound)
    else Success(t.provinces[country][Fold(stateName)])
  }

  /** `Countries`: the row of the currency-to-countries table at the
      currency's ordinal; an ordinal past the table is an index error. */
  function Countries(t: Tables, currency: int): (r: Result<seq<string>>)
    ensures r.Success? <==> 0 <= currency < |t.currency2Country|
    ensures r.Failure? ==> r.error == IndexOutOfRange
  {
    if 0 <= currency < |t.currency2Country| then Success(t.currency2Country[currency])
    else Failure(IndexOutOfRange)
  }

  /** `Currency`: the country's currency if the table has one. */
  function Currency(t: Tables, country: string): (r: Option<nat>)
    ensures r.Some? <==> country in t.country2Currency
  {
    if country in t.country2Currency then Some(t.country2Currency[country]) else None
  }

  /** Every key of every province dictionary is already case-folded, as the
      emitted dictionaries' comparer sees it. */
  ghost predicate FoldedKeys(t: Tables) {
    forall country, k :: country in t.provinces && k in t.provinces[country] ==> Fold(k) == k
  }

  /** Two spellings of a state that differ only in letter case look up the
      same entry. */
  lemma StateIgnoresCase(t: Tables, country: string, a: string, b: string)
    requires SameIgnoringCase(a, b)
    ensures State(t, country, a) == State(t, country, b)
  {
  }

  /** The states of a country are exactly the names `State` can return for
      it. */
  lemma StatesAreLookups(t: Tables, country: string)
    requires FoldedKeys(t) && country in t.provinces
    ensures forall s :: s in States(t, country).value <==> exists name :: State(t, country, name) == Success(s)
  {
    var p := t.provinces[country];
    forall s | s in States(t, country).value ensures exists name :: State(t, country, name) == Success(s) {
      var k :| k in p && p[k] == s;
      assert State(t, country, k) == Success(s);
    }
  }

  // ---------------------------------------------------------------------
  // The province tables as emitted
  // ---------------------------------------------------------------------

  /** One country's province dictionary as emitted: a dictionary with the
      OrdinalIgnoreCase comparer initialised with every alias and its
      official name. Adding an alias equal, ignoring case, to one already
      added throws. */
  function AliasTable(p: map<string, string>): (r: Result<map<string, string>>)
    ensures r.Success? <==> forall a, b :: a in p && b in p && Fold(a) == Fold(b) ==> a == b
    ensures r.Failure? ==> r.error == DuplicateKey
    ensures r.Success? ==> forall a :: a in p ==> Fold(a) in r.value && r.value[Fold(a)] == p[a]
    ensures r.Success? ==> forall k :: k in r.value ==> Fold(k) == k && exists a :: a in p && Fold(a) == k
  {
    if forall a, b :: a in p && b in p && Fold(a) == Fold(b) ==> a == b then
      var r := map a | a in p :: Fold(a) := p[a];
      assert forall k :: k in r ==> Fold(k) == k by {
        forall k | k in r ensures Fold(k) == k {
          var a :| a in p && Fold(a) == k;
          FoldIdempotent(a);
        }
      }
      Success(r)
    else Failure(DuplicateKey)
  }

  /** No two countries of the generator's table are written as the same
      enum member. */
  predicate DistinctMembers(states: Territories) {
    forall k1, k2 :: k1 in states && k2 in states && EnumName(states[k1].name) == EnumName(states[k2].name) ==> k1 == k2
  }

  /** The province table as emitted: each country of the generator's table
      under the enum member of the name it was first spelled with, with its
      province dictionary. Two countries written as the same member make the
      generated enum declare that member twice, so the generated code does
      not build; otherwise a province dictionary that throws makes the
      initialiser throw. */
  function ProvinceTable(states: Territories): (r: Result<map<string, map<string, string>>>)
    ensures r.Success? <==> DistinctMembers(states) && forall key :: key in states ==> AliasTable(states[key].provinces).Success?
    ensures r.Failure? ==> r.error == if DistinctMembers(states) then DuplicateKey else DoesNotCompile
  {
    if !DistinctMembers(states) then Failure(DoesNotCompile)
    else if forall key :: key in states ==> AliasTable(states[key].provinces).Success? then
      Success(map key | key in states :: EnumName(states[key].name) := AliasTable(states[key].provinces).value)
    else Failure(DuplicateKey)
  }

  /** Each country of the generator's table is in the emitted table under
      its enum member, and nothing else is. */
  lemma ProvinceTableEntries(states: Territories)
    requires ProvinceTable(states).Success?
    ensures var m := ProvinceTable(states).value;
      (forall key :: key in states ==>
        EnumName(states[key].name) in m && m[EnumName(states[key].name)] == AliasTable(states[key].provinces).value) &&
      forall c :: c in m ==> exists key :: key in states && EnumName(states[key].name) == c
  {
    var m := ProvinceTable(states).value;
    forall key | key in states
      ensures EnumName(states[key].name) in m && m[EnumName(states[key].name)] == AliasTable(states[key].provinces).value
    {
      var c := EnumName(states[key].name);
      assert c in m;
      var k :| k in states && EnumName(states[k].name) == c && m[c] == AliasTable(states[k].provinces).value;
      assert k == key;
    }
    forall c | c in m ensures exists key :: key in states && EnumName(states[key].name) == c {
      var k :| k in states && EnumName(states[k].name) == c;
    }
  }

  /** The emitted province dictionaries have case-folded keys. */
  lemma ProvinceTableFolded(states: Territories, t: Tables)
    requires ProvinceTable(states).Success? && t.provinces == ProvinceTable(states).value
    ensures FoldedKeys(t)
  {
    ProvinceTableEntries(states);
    forall country, k | country in t.provinces && k in t.provinces[country] ensures Fold(k) == k {
      var key :| key in states && EnumName(states[key].name) == country;
      assert t.provinces[country] == AliasTable(states[key].provinces).value;
    }
  }

  /** The country of a line of the province file, as the lookups name it. */
  function LineCountry(states: Territories, countries: map<string, string>, f: seq<string>): string
    requires |f| >= 1 && f[0] in countries && CountryKey(countries, f) in states
  {
    EnumName(states[CountryKey(countries, f)].name)
  }

  /** After the tables are emitted from the province file, looking up any
      line's alias, in any letter case, gives that line's official name. */
  lemma StateOfEveryAlias(lines: seq<string>, countries: map<string, string>, t: Tables, j: nat, spelling: string)
    requires ProvincesOf(lines, countries).Success?
    requires ProvinceTable(ProvincesOf(lines, countries).value).Success?
    requires t.provinces == ProvinceTable(ProvincesOf(lines, countries).value).value
    requires j < |lines| && |Fields(lines[j])| >= 3 && SameIgnoringCase(spelling, Fields(lines[j])[1])
    ensures var f := Fields(lines[j]);
      Registered(ProvincesOf(lines, countries).value, countries, f) &&
      State(t, LineCountry(ProvincesOf(lines, countries).value, countries, f), spelling) == Success(f[2])
  {
    var states := ProvincesOf(lines, countries).value;
    ProvinceTableEntries(states);
    EveryLineRegistered(lines, countries);
    assert Registered(states, countries, Fields(lines[j]));
  }

  /** And looking up the official name of a line that no line of its
      country uses as an alias gives the official name back. */
  lemma StateOfOfficialName(lines: seq<string>, countries: map<string, string>, t: Tables, j: nat, spelling: string)
    requires ProvincesOf(lines, countries).Success?
    requires ProvinceTable(ProvincesOf(lines, countries).value).Success?
    requires t.provinces == ProvinceTable(ProvincesOf(lines, countries).value).value
    requires j < |lines| && |Fields(lines[j])| >= 3 && SameIgnoringCase(spelling, Fields(lines[j])[2])
    requires forall i :: 0 <= i < |lines| && SameCountry(countries, Fields(lines[i]), Fields(lines[j])) ==>
      Fields(lines[i])[1] != Fields(lines[j])[2]
    ensures var f := Fields(lines[j]);
      Registered(ProvincesOf(lines, countries).value, countries, f) &&
      State(t, LineCountry(ProvincesOf(lines, countries).value, countries, f), spelling) == Success(f[2])
  {
    ProvinceTableEntries(ProvincesOf(lines, countries).value);
    OfficialNameMapsToItself(lines, countries, j);
  }

  /** Every entry of a country in the generator's table maps to the
      official name of one of that country's lines. */
  lemma OfficialNameOfEntry(lines: seq<string>, countries: map<string, string>, key: string, a: string)
    requires ProvincesOf(lines, countries).Success?
    requires key in ProvincesOf(lines, countries).value && a in ProvincesOf(lines, countries).value[key].provinces
    ensures exists i ::
      0 <= i < |lines| && OfCountry(countries, Fields(lines[i]), key) &&
      Fields(lines[i])[2] == ProvincesOf(lines, countries).value[key].provinces[a]
  {
    var official := ProvincesOf(lines, countries).value[key].provinces[a];
    NothingInvented(lines, countries);
    assert FromSomeLine(countries, lines, key, a, official);
    var i :| 0 <= i < |lines| && OfCountry(countries, Fields(lines[i]), key) &&
      ((a == Fields(lines[i])[1] && official == Fields(lines[i])[2]) ||
       (a == Fields(lines[i])[2] && official == a));
    assert Fields(lines[i])[2] == official;
  }

  /** Every state `States` lists for a country of the province file is the
      official name of one of that country's lines. */
  lemma StatesFromFile(lines: seq<string>, countries: map<string, string>, t: Tables, key: string)
    requires ProvincesOf(lines, countries).Success?
    requires ProvinceTable(ProvincesOf(lines, countries).value).Success?
    requires t.provinces == ProvinceTable(ProvincesOf(lines, countries).value).value
    requires key in ProvincesOf(lines, countries).value
    ensures var country := EnumName(ProvincesOf(lines, countries).value[key].name);
      States(t, country).Success? &&
      forall s :: s in States(t, country).value ==>
        exists i :: 0 <= i < |lines| && OfCountry(countries, Fields(lines[i]), key) && Fields(lines[i])[2] == s
  {
    var states := ProvincesOf(lines, countries).value;
    var p := states[key].provinces;
    var country := EnumName(states[key].name);
    ProvinceTableEntries(states);
    forall s | s in States(t, country).value
      ensures exists i :: 0 <= i < |lines| && OfCountry(countries, Fields(lines[i]), key) && Fields(lines[i])[2] == s
    {
      assert t.provinces[country] == AliasTable(p).value;
      var k :| k in t.provinces[country] && t.provinces[country][k] == s;
      var a :| a in p && Fold(a) == k;
      assert p[a] == s;
      OfficialNameOfEntry(lines, countries, key, a);
    }
  }

  /** And the official name of every line of the province file is among
      the states of its country. */
  lemma OfficialNamesListed(lines: seq<string>, countries: map<string, string>, t: Tables, j: nat)
    requires ProvincesOf(lines, countries).Success?
    requires ProvinceTable(ProvincesOf(lines, countries).value).Success?
    requires t.provinces == ProvinceTable(ProvincesOf(lines, countries).value).value
    requires j < |lines| && |Fields(lines[j])| >= 3
    ensures var f := Fields(lines[j]);
      Registered(ProvincesOf(lines, countries).value, countries, f) &&
      States(t, LineCountry(ProvincesOf(lines, countries).value, countries, f)).Success? &&
      f[2] in States(t, LineCountry(ProvincesOf(lines, countries).value, countries, f)).value
  {
    var f := Fields(lines[j]);
    StateOfEveryAlias(lines, countries, t, j, f[1]);
    var country := LineCountry(ProvincesOf(lines, countries).value, countries, f);
    assert t.provinces[country][Fold(f[1])] == f[2];
  }

  // ---------------------------------------------------------------------
  // The currency tables as emitted
  // ---------------------------------------------------------------------

  /** The currency-to-countries table as emitted: the country lists of the
      rows of `Currency2Country`, in order. */
  function CountryRows(d: SortedLists): (rows: seq<seq<string>>)
    requires ValidLists(d)
    ensures |rows| == |Currency2Country(d)|
    ensures forall i :: 0 <= i < |rows| ==> rows[i] == Currency2Country(d)[i].1
  {
    var table := Currency2Country(d);
    seq(|table|, i requires 0 <= i < |table| => table[i].1)
  }

  /** The position of `x` in `s`. */
  function IndexOf(s: seq<string>, x: string): (i: nat)
    requires x in s
    ensures i < |s| && s[i] == x
  {
    if s[0] == x then 0 else 1 + IndexOf(s[1..], x)
  }

  /** The country-to-currency table as emitted: each country code with the
      ordinal of its currency, which must be a member of the currency enum
      for the emitted code to compile. */
  function CurrencyTable(currencies: seq<string>, m: map<string, string>): (r: map<string, nat>)
    requires forall c :: c in m ==> m[c] in currencies
    ensures forall c :: c in r <==> c in m
    ensures forall c :: c in r ==> r[c] < |currencies| && currencies[r[c]] == m[c]
  {
    map c | c in m :: IndexOf(currencies, m[c])
  }

  /** The currency of every two-letter country code is a member of the
      currency enum. */
  lemma CountryCurrenciesDeclared(text: string)
    requires CodeLengthsApart(Rows(Split(text)))
    requires Country2Currency(CurrenciesOf(text).lists).Success?
    ensures var tables := CurrenciesOf(text);
      forall c :: c in Country2Currency(tables.lists).value ==> Country2Currency(tables.lists).value[c] in tables.currencies
  {
    var rows := Rows(Split(text));
    var tables := CurrencyTablesOf(rows);
    var m := Country2Currency(tables.lists).value;
    ListsFromRecords(rows);
    CurrencySetFromFile(rows);
    forall c | c in m ensures m[c] in tables.currencies {
      var e := tables.lists.entries;
      assert e[c] == [m[c]];
      assert ListedByRecord(rows, c, m[c]);
      assert HasCurrency(rows, m[c]);
    }
  }

  /** The tables emitted from the currency file. */
  ghost predicate CurrencyTablesFrom(text: string, t: Tables) {
    var tables := CurrenciesOf(text);
    CodeLengthsApart(Rows(Split(text))) &&
    Country2Currency(tables.lists).Success? &&
    (forall c :: c in Country2Currency(tables.lists).value ==> Country2Currency(tables.lists).value[c] in tables.currencies) &&
    t.currency2Country == CountryRows(tables.lists) &&
    t.country2Currency == CurrencyTable(tables.currencies, Country2Currency(tables.lists).value)
  }

  /** `Countries` of a currency ordinal lists exactly the countries whose
      records in the currency file have that currency. */
  lemma CountriesOfCurrency(text: string, t: Tables, i: int)
    requires CurrencyTablesFrom(text, t)
    ensures Countries(t, i).Success? <==> 0 <= i < |CurrenciesOf(text).currencies|
    ensures Countries(t, i).Success? ==>
      forall code :: code in Countries(t, i).value <==> UsesCurrency(Rows(Split(text)), CurrenciesOf(text).currencies[i], code)
  {
    CurrencyRowsAlign(text);
  }

  /** `Currency` gives the currency of a country code's record. */
  lemma CountryUsesItsCurrency(text: string, t: Tables, code: string)
    requires CurrencyTablesFrom(text, t)
    requires Currency(t, code).Some?
    ensures var i := Currency(t, code).value;
      i < |CurrenciesOf(text).currencies| &&
      exists j :: 0 <= j < |Rows(Split(text))| && Accepted(Rows(Split(text))[j]) &&
        Rows(Split(text))[j].0 == code && Trim(Rows(Split(text))[j].1) == CurrenciesOf(text).currencies[i]
  {
    var rows := Rows(Split(text));
    var tables := CurrencyTablesOf(rows);
    var m := Country2Currency(tables.lists).value;
    var i := Currency(t, code).value;
    assert code in m && tables.currencies[i] == m[code];
    CountryCurrencyFromRecord(rows, code);
  }

  /** So a country code without surrounding white space is among the
      countries of its own currency. */
  lemma CountryAmongItsCurrencyCountries(text: string, t: Tables, code: string)
    requires CurrencyTablesFrom(text, t)
    requires Currency(t, code).Some? && Trim(code) == code
    ensures Countries(t, Currency(t, code).value).Success?
    ensures code in Countries(t, Currency(t, code).value).value
  {
    var rows := Rows(Split(text));
    var i := Currency(t, code).value;
    CountryUsesItsCurrency(text, t, code);
    var j :| 0 <= j < |rows| && Accepted(rows[j]) && rows[j].0 == code && Trim(rows[j].1) == CurrenciesOf(text).currencies[i];
    assert UsesCurrency(rows, CurrenciesOf(text).currencies[i], code);
    CountriesOfCurrency(text, t, i);
  }
}
