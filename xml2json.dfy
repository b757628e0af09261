/**
 * Model of xml2json.go: `xmloutput2jsonoutput`, which writes the document's field list
 * as one flat JSON object into a buffer, and the package variable `bufMemAlloc`, the
 * capacity hint it updates after every call.
 *
 * `xml.Unmarshal` (in `x2j`) is not modelled: the input is the field list it produces.
 * Only `FieldName` and `FieldValue` are read; they are copied without any escaping, so
 * the output is this exact concatenation and not necessarily valid JSON.
 */
module Xml2Json {
  import Text

  /** One `<field>` element of the event document. */
  datatype XtractaField = XtractaField(
    text: string, fieldId: string, fieldName: string, fieldValue: string, fieldExtractionConfidence: string)

  /** `"name":"value"`, both copied verbatim. */
  function FieldEntry(f: XtractaField): string
  {
    "\"" + f.fieldName + "\":\"" + f.fieldValue + "\""
  }

  function Entries(fields: seq<XtractaField>): (r: seq<string>)
    ensures |r| == |fields| && forall i :: 0 <= i < |fields| ==> r[i] == FieldEntry(fields[i])
  {
    seq(|fields|, i requires 0 <= i < |fields| => FieldEntry(fields[i]))
  }

  /** The object: `{`, the entries in input order joined by `,`, then `}`. */
  function FieldListJson(fields: seq<XtractaField>): string
  {
    "{" + Text.Join(Entries(fields), ",") + "}"
  }

  /** The capacity hint for the next call: `1024 * (1 + buf.Len() % 1024)`, with `Len` counting bytes. */
  function NextBufMemAlloc(buf: string): (alloc: int)
    ensures alloc % 1024 == 0 && 1024 <= alloc <= 1048576
  {
    1024 * (1 + Text.Utf8Length(buf) % 1024)
  }

  /** The package state of xml2json.go: the variable `bufMemAlloc`. */
  class Xml2JsonState {
    var bufMemAlloc: int

    /** Every value `bufMemAlloc` takes is a multiple of 1024 between 1024 and 1048576. */
    ghost predicate Valid()
      reads this
    {
      bufMemAlloc % 1024 == 0 && 1024 <= bufMemAlloc <= 1048576
    }

    /** The initial value, 2048. */
    constructor ()
      ensures Valid() && bufMemAlloc == 2048
    {
      bufMemAlloc := 2048;
    }

    /**
     * `xmloutput2jsonoutput`: the `range` loop writes a comma before every entry but the
     * first; afterwards `bufMemAlloc` is recomputed from the length of the buffer.
     * (`buf.Grow(bufMemAlloc)` only reserves capacity and changes no content.)
     */
    method XmlOutputToJsonOutput(fields: seq<XtractaField>) returns (buf: string)
      requires Valid()
      modifies this
      ensures Valid()
      ensures buf == FieldListJson(fields)
      ensures bufMemAlloc == NextBufMemAlloc(buf)
    {
      buf := "{";
      for ix := 0 to |fields|
        invariant buf == "{" + Text.Join(Entries(fields[..ix]), ",")
      {
        ghost var lead := buf + (if ix != 0 then "," else "");
        if ix != 0 {
          buf := buf + ",";
        }
        buf := buf + "\"";
        buf := buf + fields[ix].fieldName;
        buf := buf + "\":\"";
        buf := buf + fields[ix].fieldValue;
        buf := buf + "\"";
        EntryAppended(lead, fields[ix]);
        EntriesJoinStep(fields, ix);
      }
      assert fields[..|fields|] == fields;
      buf := buf + "}";
      bufMemAlloc := NextBufMemAlloc(buf);
    }
  }

  lemma EntryAppended(before: string, f: XtractaField)
    ensures before + "\"" + f.fieldName + "\":\"" + f.fieldValue + "\"" == before + FieldEntry(f)
  {
    Text.AppendAssociative(before, "\"", f.fieldName);
    Text.AppendAssociative(before, "\"" + f.fieldName, "\":\"");
    Text.AppendAssociative(before, "\"" + f.fieldName + "\":\"", f.fieldValue);
    Text.AppendAssociative(before, "\"" + f.fieldName + "\":\"" + f.fieldValue, "\"");
  }

  /** One more field: a comma unless it is the first, then its entry. */
  lemma EntriesJoinStep(fields: seq<XtractaField>, ix: nat)
    requires ix < |fields|
    ensures "{" + Text.Join(Entries(fields[..ix + 1]), ",") ==
      "{" + Text.Join(Entries(fields[..ix]), ",") + (if ix != 0 then "," else "") + FieldEntry(fields[ix])
  {
    var done := Entries(fields[..ix]);
    assert Entries(fields[..ix + 1]) == done + [FieldEntry(fields[ix])];
    assert (done + [FieldEntry(fields[ix])])[..ix] == done;
    if ix != 0 {
      Text.AppendAssociative("{" + Text.Join(done, ","), ",", FieldEntry(fields[ix]));
      Text.AppendAssociative("{", Text.Join(done, ",") + ",", FieldEntry(fields[ix]));
      Text.AppendAssociative("{", Text.Join(done, ","), ",");
    }
  }

  /** An empty field list gives exactly `{}`. */
  lemma EmptyFieldList()
    ensures FieldListJson([]) == "{}"
  {
  }

  /**
   * The output opens with `{` and closes with `}`; with at least one field the character
   * after `{` and the one before `}` are the quotes of the first and the last entry, so
   * there is no leading and no trailing comma.
   */
  lemma {:induction false} FieldListJsonBounds(fields: seq<XtractaField>)
    ensures var s := FieldListJson(fields); |s| >= 2 && s[0] == '{' && s[|s| - 1] == '}'
    ensures var s := FieldListJson(fields); fields != [] ==> s[1] == '"' && s[|s| - 2] == '"'
  {
    if fields != [] {
      JoinEnds(Entries(fields));
    }
  }

  lemma {:induction false} JoinEnds(entries: seq<string>)
    requires entries != []
    requires forall i :: 0 <= i < |entries| ==> |entries[i]| >= 2 && entries[i][0] == '"' && entries[i][|entries[i]| - 1] == '"'
    ensures var j := Text.Join(entries, ","); |j| >= 2 && j[0] == '"' && j[|j| - 1] == '"'
  {
    if |entries| > 1 {
      JoinEnds(entries[..|entries| - 1]);
    }
  }

  /**
   * Entries appear in input order: the object for `a + b` is the object for `a` with the
   * entries of `b` added after one comma.
   */
  lemma FieldListJsonAppend(a: seq<XtractaField>, b: seq<XtractaField>)
    requires a != [] && b != []
    ensures FieldListJson(a + b) == "{" + Text.Join(Entries(a), ",") + "," + Text.Join(Entries(b), ",") + "}"
  {
    assert Entries(a + b) == Entries(a) + Entries(b);
    Text.JoinAppend(Entries(a), Entries(b), ",");
  }

  /** Only names and values matter: the id, the text and the confidence never change the output. */
  lemma NamesAndValuesOnly(fields: seq<XtractaField>, others: seq<XtractaField>)
    requires |fields| == |others|
    requires forall i :: 0 <= i < |fields| ==>
      fields[i].fieldName == others[i].fieldName && fields[i].fieldValue == others[i].fieldValue
    ensures FieldListJson(fields) == FieldListJson(others)
  {
    assert Entries(fields) == Entries(others);
  }
}
