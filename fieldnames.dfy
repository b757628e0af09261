/**
 * Model of the field-translation table loader of fieldnames.go (`loadFieldTranslations`).
 *
 * The file is read by `encoding/csv` with `;` as separator; that split is not modelled:
 * the loader's input is the sequence of results the reader returns, each either a
 * record (a row of columns) or `Stop`, which stands for `io.EOF` and for any other read
 * error alike (both end the loop; only the logging differs). Whether `os.Open`
 * succeeds is a parameter. `myFatal` ends the process; here it is the `Fatal` outcome.
 */
module FieldNames {
  import opened Wrappers
  import Text
  import Misc

  /** `JsonFieldType` and its `iota` constants, in declaration order. */
  datatype JsonFieldType = JsonString | JsonInteger | JsonNumeric | JsonDate | JsonBoolean

  function Ordinal(t: JsonFieldType): nat
  {
    match t
    case JsonString => 0
    case JsonInteger => 1
    case JsonNumeric => 2
    case JsonDate => 3
    case JsonBoolean => 4
  }

  /** `remapField`: one rule of the translation table. */
  datatype RemapField = RemapField(jsonName: string, xmlName: string, fieldType: JsonFieldType, omitEmpty: bool)

  /** `remapField.String`, the `%s   %s   %v   %t` format (`%v` of the type prints its number). */
  function RemapFieldString(r: RemapField): (s: string)
    ensures var p, d := |r.jsonName| + 3 + |r.xmlName| + 3, Text.Decimal(Ordinal(r.fieldType));
      && |s| == p + |d| + 3 + (if r.omitEmpty then 4 else 5)
      && s[..p] == r.jsonName + "   " + r.xmlName + "   "
      && s[p..p + |d|] == d && Text.DigitsValue(s[p..p + |d|]) == Ordinal(r.fieldType)
      && s[p + |d|..p + |d| + 3] == "   "
      && s[p + |d| + 3..] == if r.omitEmpty then "true" else "false"
  {
    Text.DigitsValueOfDecimal(Ordinal(r.fieldType));
    r.jsonName + "   " + r.xmlName + "   " + Text.Decimal(Ordinal(r.fieldType)) + "   "
    + (if r.omitEmpty then "true" else "false")
  }

  // ---------------------------------------------------------------- column classification

  /** The names, lower-cased, that select each type in the third column. */
  function TypeNames(t: JsonFieldType): set<string>
  {
    match t
    case JsonString => {"string"}
    case JsonInteger => {"decimal", "integer"}
    case JsonNumeric => {"numeric", "number"}
    case JsonDate => {"date"}
    case JsonBoolean => {"boolean", "bool"}
  }

  /** Every name that selects some type. */
  const AllTypeNames: set<string> := {"string", "numeric", "number", "decimal", "integer", "boolean", "bool", "date"}

  /**
   * The third column, lower-cased and matched against the type names; anything else is a
   * string. A token whose lower-case form is one of a type's names gives that type, and a
   * type other than string is only given for one of its names.
   */
  function FieldTypeOf(token: string): (t: JsonFieldType)
    ensures forall u :: Text.Lower(token) in TypeNames(u) ==> t == u
    ensures t == JsonString || Text.Lower(token) in TypeNames(t)
  {
    var lower := Text.Lower(token);
    if lower == "string" then JsonString
    else if lower == "numeric" || lower == "number" then JsonNumeric
    else if lower == "decimal" || lower == "integer" then JsonInteger
    else if lower == "boolean" || lower == "bool" then JsonBoolean
    else if lower == "date" then JsonDate
    else JsonString
  }

  /** The fourth column: only `true`, in any letter case, means omit-empty. */
  predicate OmitEmptyOf(token: string)
    ensures OmitEmptyOf(token) <==>
      |token| == 4 && token[0] in "tT" && token[1] in "rR" && token[2] in "uU" && token[3] in "eE"
  {
    var lower := Text.Lower(token);
    assert |token| == 4 ==> lower == [lower[0], lower[1], lower[2], lower[3]];
    lower == "true"
  }

  /** Upper-casing a token does not change its lower-case form. */
  lemma LowerOfUpper(token: string)
    ensures Text.Lower(Text.Upper(token)) == Text.Lower(token)
  {
    var u := Text.Upper(token);
    forall i | 0 <= i < |u| ensures Text.Lower(u)[i] == Text.Lower(token)[i] {
      assert Text.LowerChar(Text.UpperChar(token[i])) == Text.LowerChar(token[i]);
    }
  }

  /**
   * Classification ignores letter case: a token and its upper-case form classify alike, and
   * every accepted name of a type, in any letter case, gives that type.
   */
  lemma FieldTypeOfNames(t: JsonFieldType, token: string)
    requires Text.Lower(token) in TypeNames(t)
    ensures FieldTypeOf(token) == t
    ensures FieldTypeOf(Text.Upper(token)) == t
  {
    LowerOfUpper(token);
  }

  /** A token no name matches is treated as a string rather than rejected. */
  lemma FieldTypeOfUnknown(token: string)
    requires Text.Lower(token) !in AllTypeNames
    ensures FieldTypeOf(token) == JsonString
  {
  }

  /** Only a fourth column spelling `true` turns omit-empty on; `false` and anything else leave it off. */
  lemma OmitEmptyOfCases(token: string)
    ensures OmitEmptyOf(token) <==>
      (|token| == 4 && Text.LowerChar(token[0]) == 't' && Text.LowerChar(token[1]) == 'r'
       && Text.LowerChar(token[2]) == 'u' && Text.LowerChar(token[3]) == 'e')
  {
    if OmitEmptyOf(token) {
      assert Text.Lower(token)[0] == 't';
      assert Text.Lower(token)[1] == 'r';
      assert Text.Lower(token)[2] == 'u';
      assert Text.Lower(token)[3] == 'e';
    }
    if |token| == 4 && Text.LowerChar(token[0]) == 't' && Text.LowerChar(token[1]) == 'r'
      && Text.LowerChar(token[2]) == 'u' && Text.LowerChar(token[3]) == 'e' {
      assert Text.Lower(token) == "true";
    }
  }

  // ---------------------------------------------------------------- records

  /** One result of `rdr.Read()`: a record, or the end of the input / a read error. */
  datatype ReadStep = Row(record: seq<string>) | Stop

  /** A record whose first column lower-cases to `xmlname` is a header row. */
  predicate IsHeader(record: seq<string>)
    requires |record| >= 1
  {
    Text.Lower(record[0]) == "xmlname"
  }

  /** What the loop body may index: the first column always, columns 1 to 3 unless it is a header row. */
  predicate WellFormed(record: seq<string>)
  {
    |record| >= 1 && (!IsHeader(record) ==> |record| >= 4)
  }

  predicate AllWellFormed(records: seq<seq<string>>)
  {
    forall i :: 0 <= i < |records| ==> WellFormed(records[i])
  }

  /** A record that adds a rule (every well-formed record that is not a header row). */
  predicate IsRule(record: seq<string>)
  {
    |record| >= 4 && !IsHeader(record)
  }

  /** The rule a record describes: columns 0 and 1 are the names, 2 and 3 are classified. */
  function RuleOf(record: seq<string>): RemapField
    requires |record| >= 4
  {
    RemapField(record[1], record[0], FieldTypeOf(record[2]), OmitEmptyOf(record[3]))
  }

  /** The records the loop sees: those read before the first `Stop`. */
  function RecordsBeforeStop(stream: seq<ReadStep>): seq<seq<string>>
  {
    if stream == [] || stream[0].Stop? then [] else [stream[0].record] + RecordsBeforeStop(stream[1..])
  }

  lemma {:induction false} RecordsBeforeStopShape(stream: seq<ReadStep>)
    ensures var rs := RecordsBeforeStop(stream);
      && |rs| <= |stream|
      && (forall j :: 0 <= j < |rs| ==> stream[j].Row? && rs[j] == stream[j].record)
      && (|rs| < |stream| ==> stream[|rs|].Stop?)
  {
    if stream != [] && stream[0].Row? {
      RecordsBeforeStopShape(stream[1..]);
    }
  }

  /** The first `Stop` ends the input: whatever the reader would return after it is never looked at. */
  lemma {:induction false} StopEndsInput(before: seq<ReadStep>, after: seq<ReadStep>)
    ensures RecordsBeforeStop(before + [Stop] + after) == RecordsBeforeStop(before + [Stop])
    ensures (forall j :: 0 <= j < |before| ==> before[j].Row?) ==>
      RecordsBeforeStop(before + [Stop]) == seq(|before|, j requires 0 <= j < |before| => before[j].record)
  {
    if before == [] {
    } else {
      assert (before + [Stop] + after)[1..] == before[1..] + [Stop] + after;
      assert (before + [Stop])[1..] == before[1..] + [Stop];
      StopEndsInput(before[1..], after);
    }
  }

  /** The table, or the duplicate name that made loading fatal. */
  datatype Translations = Loaded(table: map<string, RemapField>) | Fatal(duplicate: string)

  /** One pass of the loop body: skip a header row, insert a new rule, abort on a name already present. */
  function Accept(table: map<string, RemapField>, record: seq<string>): Translations
    requires WellFormed(record)
  {
    if IsHeader(record) then Loaded(table)
    else
      var rule := RuleOf(record);
      if rule.xmlName in table then Fatal(rule.xmlName) else Loaded(table[rule.xmlName := rule])
  }

  /** The loop over the records, as a fold that stops at the first fatal record. */
  function Fold(records: seq<seq<string>>): Translations
    requires AllWellFormed(records)
  {
    if records == [] then Loaded(map[])
    else
      match Fold(records[..|records| - 1])
      case Fatal(name) => Fatal(name)
      case Loaded(table) => Accept(table, records[|records| - 1])
  }

  /** What `loadFieldTranslations(fn)` returns, given whether the file opens and what the reader yields. */
  function FieldTranslations(fn: string, fileOpens: bool, stream: seq<ReadStep>): Translations
    requires AllWellFormed(RecordsBeforeStop(stream))
  {
    if fn == "" || !fileOpens then Loaded(map[]) else Fold(RecordsBeforeStop(stream))
  }

  /** `loadFieldTranslations`: the `rdr.Read()` loop filling `remap` in place. */
  method LoadFieldTranslations(fn: string, fileOpens: bool, stream: seq<ReadStep>) returns (result: Translations)
    requires AllWellFormed(RecordsBeforeStop(stream))
    ensures result == FieldTranslations(fn, fileOpens, stream)
  {
    var remap: map<string, RemapField> := map[];
    if !Misc.IsStringSet(Some(fn)) {
      return Loaded(remap);
    }
    if !fileOpens {
      return Loaded(remap);
    }
    ghost var records := RecordsBeforeStop(stream);
    RecordsBeforeStopShape(stream);
    var i := 0;
    while i < |stream| && stream[i].Row?
      invariant 0 <= i <= |records|
      invariant Fold(records[..i]) == Loaded(remap)
    {
      var record := stream[i].record;
      assert records[..i + 1][..i] == records[..i];
      assert records[..i + 1][i] == record;
      assert WellFormed(record);
      if Text.Lower(record[0]) == "xmlname" {
        i := i + 1;
        continue;
      }
      var rm := RemapField(record[1], record[0], FieldTypeOf(record[2]), OmitEmptyOf(record[3]));
      if rm.xmlName !in remap {
        remap := remap[rm.xmlName := rm];
      } else {
        FatalIsFinal(records, i + 1);
        return Fatal(rm.xmlName);
      }
      i := i + 1;
    }
    assert records[..i] == records;
    result := Loaded(remap);
  }

  /** Once a prefix of the records is fatal, the whole load is fatal for the same name. */
  lemma {:induction false} FatalIsFinal(records: seq<seq<string>>, k: nat)
    requires AllWellFormed(records) && k <= |records|
    requires AllWellFormed(records[..k]) && Fold(records[..k]).Fatal?
    ensures Fold(records) == Fold(records[..k])
    decreases |records| - k
  {
    if k < |records| {
      var p := records[..k + 1];
      assert p[..k] == records[..k];
      assert AllWellFormed(p);
      FatalIsFinal(records, k + 1);
    } else {
      assert records[..k] == records;
    }
  }

  // ---------------------------------------------------------------- what the loaded table holds

  /** Two rules with the same XML name, at positions `i < j`. */
  predicate DuplicateAt(records: seq<seq<string>>, i: int, j: int)
  {
    0 <= i < j < |records| && IsRule(records[i]) && IsRule(records[j]) && records[i][0] == records[j][0]
  }

  predicate HasDuplicate(records: seq<seq<string>>)
  {
    exists i, j :: 0 <= i < j < |records| && DuplicateAt(records, i, j)
  }

  lemma PrefixWellFormed(records: seq<seq<string>>)
    requires AllWellFormed(records) && records != []
    ensures AllWellFormed(records[..|records| - 1])
  {
    var p := records[..|records| - 1];
    forall i | 0 <= i < |p| ensures WellFormed(p[i]) { assert p[i] == records[i]; }
  }

  /**
   * A loaded table has one entry per rule, keyed by its XML name (column 0) and holding
   * that rule, and no other entries.
   */
  lemma {:induction false} LoadedTableContents(records: seq<seq<string>>)
    requires AllWellFormed(records) && Fold(records).Loaded?
    ensures forall k :: k in Fold(records).table <==>
      exists i :: 0 <= i < |records| && IsRule(records[i]) && records[i][0] == k
    ensures forall i :: 0 <= i < |records| && IsRule(records[i]) ==>
      records[i][0] in Fold(records).table && Fold(records).table[records[i][0]] == RuleOf(records[i])
  {
    if records != [] {
      var n := |records|;
      var p, last := records[..n - 1], records[n - 1];
      PrefixWellFormed(records);
      assert Fold(p).Loaded?;
      LoadedTableContents(p);
      var t, t' := Fold(records).table, Fold(p).table;
      assert Fold(records) == Accept(t', last);
      forall k | k in t ensures exists i :: 0 <= i < |records| && IsRule(records[i]) && records[i][0] == k {
        if k !in t' {
          assert IsRule(records[n - 1]) && records[n - 1][0] == k;
        } else {
          var i :| 0 <= i < |p| && IsRule(p[i]) && p[i][0] == k;
          assert records[i] == p[i];
        }
      }
      forall i | 0 <= i < |records| && IsRule(records[i])
        ensures records[i][0] in t && t[records[i][0]] == RuleOf(records[i])
      {
        if i < n - 1 {
          assert records[i] == p[i];
        }
      }
    }
  }

  /** A fatal load names an XML name that two rules share. */
  lemma {:induction false} FatalHasDuplicate(records: seq<seq<string>>)
    requires AllWellFormed(records) && Fold(records).Fatal?
    ensures exists i, j :: DuplicateAt(records, i, j) && records[i][0] == Fold(records).duplicate
  {
    var n := |records|;
    var p, last := records[..n - 1], records[n - 1];
    PrefixWellFormed(records);
    assert forall i :: 0 <= i < |p| ==> p[i] == records[i];
    if Fold(p).Fatal? {
      FatalHasDuplicate(p);
      var i, j :| DuplicateAt(p, i, j) && p[i][0] == Fold(p).duplicate;
      assert DuplicateAt(records, i, j);
    } else {
      LoadedTableContents(p);
      var i :| 0 <= i < |p| && IsRule(p[i]) && p[i][0] == last[0];
      assert DuplicateAt(records, i, n - 1);
    }
  }

  /** A loaded table comes from records in which no two rules share an XML name. */
  lemma {:induction false} LoadedHasNoDuplicate(records: seq<seq<string>>)
    requires AllWellFormed(records) && Fold(records).Loaded?
    ensures !HasDuplicate(records)
  {
    if records != [] {
      var n := |records|;
      var p, last := records[..n - 1], records[n - 1];
      PrefixWellFormed(records);
      assert Fold(p).Loaded?;
      LoadedHasNoDuplicate(p);
      LoadedTableContents(p);
      forall i, j | 0 <= i < j < n && DuplicateAt(records, i, j) ensures false {
        assert records[i] == p[i];
        if j < n - 1 {
          assert records[j] == p[j];
          assert DuplicateAt(p, i, j);
        }
      }
    }
  }

  /**
   * Loading succeeds exactly when no two rules share an XML name; a duplicate aborts it
   * instead of overwriting the earlier rule.
   */
  lemma LoadedIffNoDuplicate(records: seq<seq<string>>)
    requires AllWellFormed(records)
    ensures Fold(records).Loaded? <==> !HasDuplicate(records)
  {
    if Fold(records).Loaded? {
      LoadedHasNoDuplicate(records);
    } else {
      FatalHasDuplicate(records);
    }
  }

  /** Every stored rule is keyed by its own XML name. */
  lemma FoldKeysAreXmlNames(records: seq<seq<string>>)
    requires AllWellFormed(records) && Fold(records).Loaded?
    ensures forall k :: k in Fold(records).table ==> Fold(records).table[k].xmlName == k
  {
    LoadedTableContents(records);
    forall k | k in Fold(records).table ensures Fold(records).table[k].xmlName == k {
      var i :| 0 <= i < |records| && IsRule(records[i]) && records[i][0] == k;
    }
  }

  /** A header row adds nothing, wherever it stands, not only as the first record. */
  lemma {:induction false} HeaderRowIgnored(before: seq<seq<string>>, header: seq<string>, after: seq<seq<string>>)
    requires AllWellFormed(before + after) && |header| >= 1 && IsHeader(header)
    ensures AllWellFormed(before + [header] + after)
    ensures Fold(before + [header] + after) == Fold(before + after)
    decreases |after|
  {
    var withH := before + [header] + after;
    assert AllWellFormed(withH) by {
      forall i | 0 <= i < |withH| ensures WellFormed(withH[i]) {
        if i < |before| { assert withH[i] == (before + after)[i]; }
        else if i > |before| { assert withH[i] == (before + after)[i - 1]; }
      }
    }
    if after == [] {
      assert withH[..|withH| - 1] == before;
      assert before + after == before;
    } else {
      var a', last := after[..|after| - 1], after[|after| - 1];
      assert withH[..|withH| - 1] == before + [header] + a';
      assert (before + after)[..|before + after| - 1] == before + a';
      assert AllWellFormed(before + a') by {
        forall i | 0 <= i < |before + a'| ensures WellFormed((before + a')[i]) {
          assert (before + a')[i] == (before + after)[i];
        }
      }
      HeaderRowIgnored(before, header, a');
    }
  }

  /** An unset file name gives the empty table without reading anything. */
  lemma UnsetNameGivesEmptyTable(fileOpens: bool, stream: seq<ReadStep>)
    requires AllWellFormed(RecordsBeforeStop(stream))
    ensures FieldTranslations("", fileOpens, stream) == Loaded(map[])
  {
  }
}
