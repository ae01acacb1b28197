/**
  The currency file is a JSON object of string values, and the generator
  cuts it into tokens with `Split` (LocaleGenerator/LocaleDataGenerator.cs).
  This module writes such an object out as text and proves which tokens
  splitting it leaves: the ones `LocaleData.Tokens` lists.
 */
module CurrencyJson {
  import opened Text
  import opened LocaleData

  /** One member of a JSON object of string values: `"key": "value"`. */
  function Member(record: (string, string)): string {
    "\"" + record.0 + "\": \"" + record.1 + "\""
  }

  /** The members of a JSON object, separated by `, `. */
  function Members(records: seq<(string, string)>): string {
    if records == [] then []
    else if |records| == 1 then Member(records[0])
    else Member(records[0]) + ", " + Members(records[1..])
  }

  /** A JSON object of string values as the currency file writes it:
      `{"key": "value", "key": "value"}`. */
  function JsonText(records: seq<(string, string)>): string {
    "{" + Members(records) + "}"
  }

  /** Keys are non-empty, and neither keys nor values hold a separator. */
  predicate CleanRecords(records: seq<(string, string)>) {
    forall i :: 0 <= i < |records| ==>
      |records[i].0| > 0 && Avoids(records[i].0, JsonSeparators) && Avoids(records[i].1, JsonSeparators)
  }

  /** A quoted key, a colon, white space and a quoted value, written with
      any separator runs `q` and `colon`, split into the key, the white space
      and the value unless it is empty. */
  lemma SplitField(q: string, colon: string, k: string, sp: string, v: string, tail: string, seps: set<char>)
    requires |q| > 0 && OnlyOf(q, seps) && |colon| > 0 && OnlyOf(colon, seps)
    requires |k| > 0 && Avoids(k, seps) && |sp| > 0 && Avoids(sp, seps) && Avoids(v, seps)
    ensures SplitOn(q + k + colon + sp + q + v + q + tail, seps) ==
      [k, sp] + (if v == "" then [] else [v]) + SplitOn(tail, seps)
  {
    var vpart: seq<string> := if v == "" then [] else [v];
    var rest := SplitOn(tail, seps);
    var afterValue := q + tail;
    var afterSpace := q + (v + afterValue);
    var afterKey := colon + (sp + afterSpace);
    assert q + k + colon + sp + q + v + q + tail == q + (k + afterKey);
    assert SplitOn(afterSpace, seps) == vpart + rest by {
      assert afterValue[0] == q[0];
      SplitOnSkips(q, tail, seps);
      if v == "" {
        assert v + afterValue == afterValue;
      } else {
        SplitOnPiece(v, afterValue, seps);
      }
      SplitOnSkips(q, v + afterValue, seps);
    }
    assert SplitOn(afterKey, seps) == [sp] + (vpart + rest) by {
      assert afterSpace[0] == q[0];
      SplitOnPiece(sp, afterSpace, seps);
      SplitOnSkips(colon, sp + afterSpace, seps);
    }
    assert SplitOn(q + (k + afterKey), seps) == [k] + ([sp] + (vpart + rest)) by {
      assert afterKey[0] == colon[0];
      SplitOnPiece(k, afterKey, seps);
      SplitOnSkips(q, k + afterKey, seps);
    }
    ConsTwo(k, sp, vpart + rest);
    Associative([k, sp], vpart, rest);
  }

  /** One member splits into its key, the white space after the colon, and
      its value unless it is empty. */
  lemma SplitMember(record: (string, string), tail: string)
    requires |record.0| > 0 && Avoids(record.0, JsonSeparators) && Avoids(record.1, JsonSeparators)
    ensures Split(Member(record) + tail) ==
      [record.0, " "] + (if record.1 == "" then [] else [record.1]) + Split(tail)
  {
    var q, colon := "\"", "\":";
    assert Member(record) + tail == q + record.0 + colon + " " + q + record.1 + q + tail;
    SplitField(q, colon, record.0, " ", record.1, tail, JsonSeparators);
  }

  /** Two elements put in front one by one, or as a pair. */
  lemma ConsTwo<T>(a: T, b: T, s: seq<T>)
    ensures [a] + ([b] + s) == [a, b] + s
  {
  }

  /** Concatenation regroups freely. */
  lemma Associative<T>(a: seq<T>, b: seq<T>, c: seq<T>)
    ensures a + (b + c) == a + b + c
  {
  }

  /** The comma between two members is a token of its own. */
  lemma SplitComma(s: string)
    requires s != [] && s[0] in JsonSeparators
    ensures Split(", " + s) == [", "] + Split(s)
  {
    assert Avoids(", ", JsonSeparators);
    SplitOnPiece(", ", s, JsonSeparators);
  }

  /** More than one member: the first, a comma, and the rest. */
  lemma MembersUnfold(records: seq<(string, string)>, close: string)
    requires |records| > 1
    ensures Members(records) + close == Member(records[0]) + (", " + (Members(records[1..]) + close))
  {
    var m, c, r := Member(records[0]), ", ", Members(records[1..]);
    assert Members(records) == m + c + r;
    Associative(m, c, r);
    Associative(m, c + r, close);
    Associative(c, r, close);
  }

  /** A first member and a comma in front of more members split into the
      first record's tokens and then the split of the rest. */
  lemma SplitMembersStep(records: seq<(string, string)>, close: string)
    requires |records| > 1 && CleanRecords(records)
    requires |close| > 0 && OnlyOf(close, JsonSeparators)
    ensures Split(Members(records) + close) ==
      RecordTokens(records[0], false) + Split(Members(records[1..]) + close)
  {
    var rest := records[1..];
    var head := [records[0].0, " "] + (if records[0].1 == "" then [] else [records[0].1]);
    var after := Members(rest) + close;
    assert Split(Members(records) + close) == head + Split(", " + after) by {
      MembersUnfold(records, close);
      SplitMember(records[0], ", " + after);
    }
    assert Split(", " + after) == [", "] + Split(after) by {
      assert after[0] == Member(rest[0])[0] == '"';
      SplitComma(after);
    }
    assert RecordTokens(records[0], false) == head + [", "];
    Associative(head, [", "], Split(after));
  }

  /** The members of an object of clean records, followed by a closing run of
      separators, split into the object's tokens. */
  lemma {:induction false} SplitMembers(records: seq<(string, string)>, close: string)
    requires CleanRecords(records)
    requires |close| > 0 && OnlyOf(close, JsonSeparators)
    ensures Split(Members(records) + close) == Tokens(records)
    decreases |records|
  {
    if records == [] {
      SplitOnSkips(close, [], JsonSeparators);
      assert Members(records) + close == close + [];
    } else if |records| == 1 {
      SplitMember(records[0], close);
      SplitOnSkips(close, [], JsonSeparators);
      assert close + [] == close;
    } else {
      SplitMembers(records[1..], close);
      SplitMembersStep(records, close);
    }
  }

  /** Splitting a JSON object of clean string values gives its tokens. */
  lemma JsonTokens(records: seq<(string, string)>)
    requires CleanRecords(records)
    ensures Split(JsonText(records)) == Tokens(records)
  {
    SplitMembers(records, "}");
    assert JsonText(records) == "{" + (Members(records) + "}");
    SplitOnSkips("{", Members(records) + "}", JsonSeparators);
  }

  /** The currency file of that example, `{"AQ": "", "BD": "BDT", "BE":
      "EUR"}`, splits into exactly the tokens read there. */
  lemma EmptyCurrencyFile(records: seq<(string, string)>)
    requires records == [("AQ", ""), ("BD", "BDT"), ("BE", "EUR")]
    ensures Split(JsonText(records)) == ["AQ", " ", ", ", "BD", " ", "BDT", ", ", "BE", " ", "EUR"]
  {
    assert CleanRecords(records) by {
      assert Avoids("AQ", JsonSeparators) && Avoids("", JsonSeparators);
      assert Avoids("BD", JsonSeparators) && Avoids("BDT", JsonSeparators);
      assert Avoids("BE", JsonSeparators) && Avoids("EUR", JsonSeparators);
    }
    JsonTokens(records);
    EmptyCurrencyShiftsRecords();
  }
}
