/** The re-encoding loop of HandleXFormEncoded, after url.ParseQuery. */
module FormCodec {
  import opened Text
  import opened Foreign
  import opened Options

  /** One key of the parsed form with all its values, in map-iteration order. */
  datatype FormField = FormField(key: string, values: seq<string>)

  /** url.ParseQuery never yields a key without a value. */
  predicate Parsed(fields: seq<FormField>)
  {
    forall i :: 0 <= i < |fields| ==> |fields[i].values| > 0
  }

  /** `k=` and the first value escaped, sanitised first unless k is a skip field. */
  function FieldText(d: Config, lib: Lib, f: FormField): string
    requires |f.values| > 0
  {
    f.key + "=" + (if f.key in d.skipFields then lib.queryEscape(f.values[0]) else lib.queryEscape(d.policy(f.values[0])))
  }

  /** What the loop leaves in bq: every field followed by '&'. */
  function FormBuffer(d: Config, lib: Lib, fields: seq<FormField>): string
    requires Parsed(fields)
  {
    if fields == [] then "" else FieldText(d, lib, fields[0]) + "&" + FormBuffer(d, lib, fields[1..])
  }

  /** The new body: bq without its last '&' when bq holds more than one character, and
      otherwise the original body. */
  function EncodeForm(d: Config, lib: Lib, body: string, fields: seq<FormField>): string
    requires Parsed(fields)
  {
    var bq := FormBuffer(d, lib, fields);
    if |bq| > 1 then DropLast(bq) else body
  }

  function FieldTexts(d: Config, lib: Lib, fields: seq<FormField>): (r: seq<string>)
    requires Parsed(fields)
    ensures |r| == |fields|
  {
    if fields == [] then [] else [FieldText(d, lib, fields[0])] + FieldTexts(d, lib, fields[1..])
  }

  lemma {:induction false} FormBufferTerminated(d: Config, lib: Lib, fields: seq<FormField>)
    requires Parsed(fields)
    ensures FormBuffer(d, lib, fields) == Terminated("&", FieldTexts(d, lib, fields))
  {
    if fields != [] {
      FormBufferTerminated(d, lib, fields[1..]);
    }
  }

  /** One turn of the encode loop writes the next field of FormBuffer. */
  lemma FormBufferStep(d: Config, lib: Lib, fields: seq<FormField>, i: nat, before: string, piece: string)
    requires Parsed(fields) && i < |fields|
    requires piece == if fields[i].key in d.skipFields then lib.queryEscape(fields[i].values[0])
                      else lib.queryEscape(d.policy(fields[i].values[0]))
    ensures Parsed(fields[i..]) && Parsed(fields[i + 1..])
    ensures ((before + (fields[i].key + "=")) + piece) + "&" + FormBuffer(d, lib, fields[i + 1..])
         == before + FormBuffer(d, lib, fields[i..])
  {
    assert fields[i..][0] == fields[i] && fields[i..][1..] == fields[i + 1..];
    var tail := FormBuffer(d, lib, fields[i + 1..]);
    assert FormBuffer(d, lib, fields[i..]) == FieldText(d, lib, fields[i]) + "&" + tail;
  }

  /** The new body is the fields joined by '&' with no trailing '&'; the original body
      comes back unchanged exactly when the form has no field at all. */
  lemma EncodeFormShape(d: Config, lib: Lib, body: string, fields: seq<FormField>)
    requires Parsed(fields)
    ensures EncodeForm(d, lib, body, fields) ==
      if fields == [] then body else Join("&", FieldTexts(d, lib, fields))
  {
    FormBufferTerminated(d, lib, fields);
    if fields != [] {
      assert |FieldText(d, lib, fields[0]) + "&"| > 1;
      DropTrailingSeparator("", '&', FieldTexts(d, lib, fields));
      assert "" + FormBuffer(d, lib, fields) == FormBuffer(d, lib, fields);
      assert "" + Join("&", FieldTexts(d, lib, fields)) == Join("&", FieldTexts(d, lib, fields));
    }
  }

  /** Only the first value of each key matters; every later value is discarded. */
  lemma {:induction false} EncodeFormUsesFirstValuesOnly(d: Config, lib: Lib, body: string, f1: seq<FormField>, f2: seq<FormField>)
    requires Parsed(f1) && Parsed(f2) && |f1| == |f2|
    requires forall i :: 0 <= i < |f1| ==> f1[i].key == f2[i].key && f1[i].values[0] == f2[i].values[0]
    ensures EncodeForm(d, lib, body, f1) == EncodeForm(d, lib, body, f2)
  {
    SameFirstValuesSameBuffer(d, lib, f1, f2);
  }

  lemma {:induction false} SameFirstValuesSameBuffer(d: Config, lib: Lib, f1: seq<FormField>, f2: seq<FormField>)
    requires Parsed(f1) && Parsed(f2) && |f1| == |f2|
    requires forall i :: 0 <= i < |f1| ==> f1[i].key == f2[i].key && f1[i].values[0] == f2[i].values[0]
    ensures FormBuffer(d, lib, f1) == FormBuffer(d, lib, f2)
  {
    if f1 != [] {
      SameFirstValuesSameBuffer(d, lib, f1[1..], f2[1..]);
    }
  }
}
