/** Cross-checking property records from several data sources
    (frontend/components/PropertyDataComparison.tsx): the fields on which the
    sources disagree, how a field name is shown, and which fields are
    highlighted. */
module PropertyDataComparison {
  import opened Wrap
  import opened Text
  import opened Dedup

  /** A field value as JavaScript sees it: a string, a number, or `undefined`
      for a field the source does not have. Numbers are only ever compared for
      equality; `real` holds every literal in the data (such as 3.5). A name
      that `Object.prototype` defines, such as `toString`, is read as
      `undefined` too, where JavaScript reads the inherited member. */
  datatype Value = Str(s: string) | Num(n: real) | Undefined

  /** A record's own keys with their values, in `Object.keys` order. */
  type Record = seq<(string, Value)>

  datatype DataSource = DataSource(name: string, data: Record, confidence: real)

  datatype Discrepancy = Discrepancy(field: string, sources: seq<string>, values: seq<Value>, suggestion: string)

  const SuggestionHead := "Verify "
  const SuggestionTail := " with on-site inspection or contact the relevant authorities for clarification."
  const Highlight := "text-red-500 font-semibold"

  function Keys(data: Record): (ks: seq<string>)
  {
    seq(|data|, i requires 0 <= i < |data| => data[i].0)
  }

  /** A JavaScript object never has the same own key twice. */
  predicate WellFormed(data: Record)
  {
    NoDuplicates(Keys(data))
  }

  /** `data[key]`: the value stored under the own key `key`, or `undefined`
      when there is none (inherited prototype members are not modelled). */
  function Get(data: Record, key: string): Value
  {
    if data == [] then Undefined
    else if data[0].0 == key then data[0].1
    else Get(data[1..], key)
  }

  /** `sources.map((source) => source.data[field])` */
  function ValuesOf(sources: seq<DataSource>, field: string): (vs: seq<Value>)
  {
    seq(|sources|, i requires 0 <= i < |sources| => Get(sources[i].data, field))
  }

  /** `sources.map((source) => source.name)` */
  function Names(sources: seq<DataSource>): (ns: seq<string>)
  {
    seq(|sources|, i requires 0 <= i < |sources| => sources[i].name)
  }

  function Suggestion(field: string): string
  {
    SuggestionHead + field + SuggestionTail
  }

  /** Every source holds the same value as the first one. */
  predicate AllAgree(values: seq<Value>)
  {
    forall i :: 0 <= i < |values| ==> values[i] == values[0]
  }

  /** The body of the `forEach` callback for one field: zero or one report. */
  function CheckField(sources: seq<DataSource>, field: string): seq<Discrepancy>
  {
    var uniqueValues := Distinct(ValuesOf(sources, field));
    if |uniqueValues| > 1 then [Discrepancy(field, Names(sources), uniqueValues, Suggestion(field))] else []
  }

  /** The reports pushed after the callback ran over `fields`, in order. */
  function Scan(sources: seq<DataSource>, fields: seq<string>): seq<Discrepancy>
  {
    if fields == [] then []
    else Scan(sources, fields[..|fields| - 1]) + CheckField(sources, fields[|fields| - 1])
  }

  /** `findDiscrepancies`: the field list comes from `sources[0]`, so an empty
      list of sources throws. */
  function Discrepancies(sources: seq<DataSource>): Completion<seq<Discrepancy>>
  {
    if sources == [] then Threw else Returned(Scan(sources, Keys(sources[0].data)))
  }

  /** `findDiscrepancies` as written: a loop that pushes into a local array. */
  method FindDiscrepancies(sources: seq<DataSource>) returns (result: Completion<seq<Discrepancy>>)
    ensures result == Discrepancies(sources)
  {
    if |sources| == 0 {
      return Threw;
    }
    var discrepancies: seq<Discrepancy> := [];
    var fields := Keys(sources[0].data);
    var k := 0;
    while k < |fields|
      invariant 0 <= k <= |fields|
      invariant discrepancies == Scan(sources, fields[..k])
    {
      var field := fields[k];
      var values := ValuesOf(sources, field);
      var uniqueValues := Distinct(values);
      if |uniqueValues| > 1 {
        discrepancies := discrepancies + [Discrepancy(field, Names(sources), uniqueValues, Suggestion(field))];
      }
      assert discrepancies == Scan(sources, fields[..k]) + CheckField(sources, field);
      assert fields[..k + 1][..k] == fields[..k];
      k := k + 1;
    }
    assert fields[..k] == fields;
    return Returned(discrepancies);
  }

  // ---------------------------------------------------------------------------
  // The reference definition: keep the fields the sources disagree on.

  function FieldsOf(ds: seq<Discrepancy>): (fs: seq<string>)
  {
    seq(|ds|, k requires 0 <= k < |ds| => ds[k].field)
  }

  /** The fields of `fields`, in order, whose values are not all the same. */
  function Disagreeing(sources: seq<DataSource>, fields: seq<string>): (r: seq<string>)
    ensures |r| <= |fields|
  {
    if fields == [] then []
    else (if AllAgree(ValuesOf(sources, fields[0])) then [] else [fields[0]]) + Disagreeing(sources, fields[1..])
  }

  lemma {:induction false} DisagreeingMembers(sources: seq<DataSource>, fields: seq<string>)
    ensures forall f :: f in Disagreeing(sources, fields) <==> f in fields && !AllAgree(ValuesOf(sources, f))
  {
    if fields != [] {
      DisagreeingMembers(sources, fields[1..]);
      assert fields == [fields[0]] + fields[1..];
    }
  }

  lemma {:induction false} DisagreeingConcat(sources: seq<DataSource>, a: seq<string>, b: seq<string>)
    ensures Disagreeing(sources, a + b) == Disagreeing(sources, a) + Disagreeing(sources, b)
  {
    if a != [] {
      assert (a + b)[1..] == a[1..] + b;
      DisagreeingConcat(sources, a[1..], b);
    } else {
      assert a + b == b;
    }
  }

  lemma {:induction false} DisagreeingNoDuplicates(sources: seq<DataSource>, fields: seq<string>)
    requires NoDuplicates(fields)
    ensures NoDuplicates(Disagreeing(sources, fields))
  {
    if fields != [] {
      DisagreeingNoDuplicates(sources, fields[1..]);
      DisagreeingMembers(sources, fields[1..]);
      assert fields[0] !in fields[1..];
    }
  }

  /** One report per disagreeing field, in field order, and for no other field. */
  lemma {:induction false} ScanFields(sources: seq<DataSource>, fields: seq<string>)
    ensures FieldsOf(Scan(sources, fields)) == Disagreeing(sources, fields)
  {
    if fields != [] {
      var p, f := fields[..|fields| - 1], fields[|fields| - 1];
      var before, last := Scan(sources, p), CheckField(sources, f);
      assert FieldsOf(last) == Disagreeing(sources, [f]) by {
        DistinctAtMostOneIffAllEqual(ValuesOf(sources, f));
        assert [f][1..] == [];
      }
      assert FieldsOf(before + last) == FieldsOf(before) + FieldsOf(last);
      ScanFields(sources, p);
      assert Disagreeing(sources, fields) == Disagreeing(sources, p) + Disagreeing(sources, [f]) by {
        assert p + [f] == fields;
        DisagreeingConcat(sources, p, [f]);
      }
    }
  }

  /** What every report carries. */
  lemma {:induction false} ScanEntries(sources: seq<DataSource>, fields: seq<string>, k: nat)
    requires k < |Scan(sources, fields)|
    ensures var d := Scan(sources, fields)[k];
      && d.field in fields
      && d.sources == Names(sources)
      && d.values == Distinct(ValuesOf(sources, d.field))
      && |d.values| > 1
      && d.suggestion == Suggestion(d.field)
  {
    var p := fields[..|fields| - 1];
    if k < |Scan(sources, p)| {
      ScanEntries(sources, p, k);
      assert Scan(sources, fields)[k] == Scan(sources, p)[k];
    }
  }

  /** The contract of `findDiscrepancies`: it throws on an empty list of
      sources; otherwise it reports, in the first source's key order, exactly
      the fields on which the sources disagree, at most once each, with every
      source's name and the distinct values seen. */
  lemma DiscrepancyReport(sources: seq<DataSource>)
    requires sources != [] ==> WellFormed(sources[0].data)
    ensures sources == [] <==> Discrepancies(sources).Threw?
    ensures sources != [] ==>
      var keys := Keys(sources[0].data);
      var r := Discrepancies(sources).value;
      && FieldsOf(r) == Disagreeing(sources, keys)
      && NoDuplicates(FieldsOf(r))
      && |r| <= |keys|
      && (forall f :: f in FieldsOf(r) <==> f in keys && !AllAgree(ValuesOf(sources, f)))
      && (forall k :: 0 <= k < |r| ==>
            && r[k].sources == Names(sources)
            && r[k].values == Distinct(ValuesOf(sources, r[k].field))
            && r[k].suggestion == Suggestion(r[k].field))
  {
    if sources != [] {
      var keys := Keys(sources[0].data);
      ScanFields(sources, keys);
      DisagreeingNoDuplicates(sources, keys);
      forall k | 0 <= k < |Scan(sources, keys)|
        ensures var d := Scan(sources, keys)[k];
          d.sources == Names(sources) && d.values == Distinct(ValuesOf(sources, d.field))
          && d.suggestion == Suggestion(d.field)
      {
        ScanEntries(sources, keys, k);
      }
    }
  }

  // ---------------------------------------------------------------------------
  // formatFieldName

  /** A lower-case letter directly followed by an upper-case one at `i`. */
  predicate CamelBoundary(s: string, i: int)
  {
    0 <= i < |s| - 1 && IsLower(s[i]) && IsUpper(s[i + 1])
  }

  predicate NoCamelBoundary(s: string)
  {
    forall i :: 0 <= i < |s| - 1 ==> !(IsLower(s[i]) && IsUpper(s[i + 1]))
  }

  /** `.replace(/([a-z])([A-Z])/g, "$1 $2")`: a left-to-right scan that, on a
      match, copies the letter pair with a space between and resumes after it. */
  function SplitCamel(s: string): (r: string)
    ensures s != [] ==> r != [] && r[0] == s[0]
    decreases |s|
  {
    if |s| < 2 then s
    else if IsLower(s[0]) && IsUpper(s[1]) then [s[0], ' ', s[1]] + SplitCamel(s[2..])
    else [s[0]] + SplitCamel(s[1..])
  }

  /** `.replace(/^[a-z]/, (char) => char.toUpperCase())` */
  function CapitalizeFirst(s: string): string
  {
    if s != [] && IsLower(s[0]) then [UpperChar(s[0])] + s[1..] else s
  }

  function FormatFieldName(field: string): string
  {
    CapitalizeFirst(SplitCamel(field))
  }

  /** Number of lower→upper boundaries, counted at every position. */
  function CountBoundaries(s: string): nat
  {
    if |s| < 2 then 0
    else (if IsLower(s[0]) && IsUpper(s[1]) then 1 else 0) + CountBoundaries(s[1..])
  }

  /** The first pass only inserts spaces, one per boundary, and leaves no
      boundary behind. */
  lemma {:induction false} SplitCamelInsertsSpaces(s: string)
    ensures InsertsSpaces(s, SplitCamel(s))
    ensures |SplitCamel(s)| == |s| + CountBoundaries(s)
    ensures NoCamelBoundary(SplitCamel(s))
    decreases |s|
  {
    if |s| < 2 {
      if |s| == 1 { assert InsertsSpaces(s[1..], SplitCamel(s)[1..]); }
    } else if IsLower(s[0]) && IsUpper(s[1]) {
      var t := SplitCamel(s[2..]);
      SplitCamelInsertsSpaces(s[2..]);
      var r := SplitCamel(s);
      assert r == [s[0], ' ', s[1]] + t;
      assert r[1..][1..] == [s[1]] + t;
      assert InsertsSpaces(s[1..], r[1..][1..]) by {
        assert s[1..][1..] == s[2..];
        assert r[1..][1..][1..] == t;
      }
      assert CountBoundaries(s[1..]) == CountBoundaries(s[2..]) by {
        assert s[1..][1..] == s[2..];
      }
      forall i | 0 <= i < |r| - 1 ensures !(IsLower(r[i]) && IsUpper(r[i + 1])) {
        if i >= 3 { assert r[i] == t[i - 3] && r[i + 1] == t[i - 2]; }
      }
    } else {
      var t := SplitCamel(s[1..]);
      SplitCamelInsertsSpaces(s[1..]);
      var r := SplitCamel(s);
      assert r == [s[0]] + t && r[1..] == t;
      forall i | 0 <= i < |r| - 1 ensures !(IsLower(r[i]) && IsUpper(r[i + 1])) {
        if i >= 1 { assert r[i] == t[i - 1] && r[i + 1] == t[i]; }
      }
    }
  }

  /** On a string with no boundary the first pass changes nothing. */
  lemma {:induction false} SplitCamelFixesNoBoundary(s: string)
    requires NoCamelBoundary(s)
    ensures SplitCamel(s) == s
    decreases |s|
  {
    if |s| >= 2 {
      assert !(IsLower(s[0]) && IsUpper(s[1]));
      assert NoCamelBoundary(s[1..]) by {
        forall i | 0 <= i < |s[1..]| - 1 ensures !(IsLower(s[1..][i]) && IsUpper(s[1..][i + 1])) {
          assert s[1..][i] == s[i + 1] && s[1..][i + 1] == s[i + 2];
        }
      }
      SplitCamelFixesNoBoundary(s[1..]);
      assert [s[0]] + s[1..] == s;
    }
  }

  lemma CapitalizeKeepsNoBoundary(s: string)
    requires NoCamelBoundary(s)
    ensures NoCamelBoundary(CapitalizeFirst(s))
  {
    var c := CapitalizeFirst(s);
    forall i | 0 <= i < |c| - 1 ensures !(IsLower(c[i]) && IsUpper(c[i + 1])) {
      if i > 0 { assert c[i] == s[i] && c[i + 1] == s[i + 1]; }
    }
  }

  /** Formatting a field name that is already formatted changes nothing. */
  lemma FormatFieldNameIdempotent(field: string)
    ensures FormatFieldName(FormatFieldName(field)) == FormatFieldName(field)
  {
    var once := SplitCamel(field);
    SplitCamelInsertsSpaces(field);
    CapitalizeKeepsNoBoundary(once);
    SplitCamelFixesNoBoundary(CapitalizeFirst(once));
  }

  /** The formatted name only inserts one space per boundary and upper-cases a
      leading lower-case letter. */
  lemma FormatFieldNameShape(field: string)
    ensures var r := FormatFieldName(field);
      && |r| == |field| + CountBoundaries(field)
      && (r != [] ==> !IsLower(r[0]))
      && CapitalizeFirst(SplitCamel(field)) == r
      && InsertsSpaces(field, SplitCamel(field))
      && (field != [] ==> r[1..] == SplitCamel(field)[1..])
  {
    SplitCamelInsertsSpaces(field);
  }

  // ---------------------------------------------------------------------------
  // getFieldClass

  /** `getFieldClass`: the highlight class for a field some report names, else "". */
  function FieldClass(field: string, discrepancies: seq<Discrepancy>): (c: string)
    ensures c == Highlight || c == ""
  {
    if exists k :: 0 <= k < |discrepancies| && discrepancies[k].field == field then Highlight else ""
  }

  /** On the component's own report, a field is highlighted exactly when it is
      one of the first source's fields and the sources disagree on it. */
  lemma FieldClassOfReport(sources: seq<DataSource>, field: string)
    requires sources != [] && WellFormed(sources[0].data)
    ensures var c := FieldClass(field, Discrepancies(sources).value);
      && (c == Highlight <==> field in Keys(sources[0].data) && !AllAgree(ValuesOf(sources, field)))
      && (c != Highlight ==> c == "")
  {
    var r := Discrepancies(sources).value;
    assert field in FieldsOf(r) <==> field in Keys(sources[0].data) && !AllAgree(ValuesOf(sources, field)) by {
      DiscrepancyReport(sources);
    }
    assert (exists k :: 0 <= k < |r| && r[k].field == field) <==> field in FieldsOf(r) by {
      if field in FieldsOf(r) {
        var k :| 0 <= k < |r| && FieldsOf(r)[k] == field;
        assert r[k].field == field;
      }
      if exists k :: 0 <= k < |r| && r[k].field == field {
        var k :| 0 <= k < |r| && r[k].field == field;
        assert FieldsOf(r)[k] == field;
      }
    }
  }
}
