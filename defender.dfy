/** The Defender of xss.go: its configuration, its constructors and options, and the
    handlers that rebuild a request body, each proved equal to the codec functions. */
module Xss {
  import opened Values
  import opened Text
  import opened Foreign
  import opened Options
  import JsonCodec
  import FormCodec
  import MultipartCodec
  import opened Query

  class Defender {
    var skipFields: seq<string>
    var policy: Sanitizer

    function State(): Config
      reads this
    {
      Config(skipFields, policy)
    }

    /** NewDefender: the given policy, no skip fields, then every option in order. */
    constructor NewDefender(policy0: Sanitizer, options: seq<Option>)
      ensures State() == ApplyAll(Config([], policy0), options)
    {
      skipFields := [];
      policy := policy0;
      new;
      var i := 0;
      while i < |options|
        invariant 0 <= i <= |options|
        invariant ApplyAll(State(), options[i..]) == ApplyAll(Config([], policy0), options)
      {
        assert options[i..][1..] == options[i + 1..];
        ApplyOption(options[i]);
        i := i + 1;
      }
    }

    /** DefaultDefender: the strict policy, the caller's options, then SetSkipFields("password"). */
    static method DefaultDefender(lib: Lib, options: seq<Option>) returns (d: Defender)
      ensures fresh(d)
      ensures d.State() == ApplyAll(Config([], lib.strictSanitize), options + [Option.SetSkipFields(["password"])])
      ensures d.skipFields == ["password"]
      ensures d.policy == LastPolicy(options, lib.strictSanitize)
    {
      d := new Defender.NewDefender(lib.strictSanitize, options + [Option.SetSkipFields(["password"])]);
      DefaultSkipFieldsArePassword(Config([], lib.strictSanitize), options);
    }

    /** The closure of SetSkipFields: the list is replaced, not extended. */
    method SetSkipFields(ss: seq<string>)
      modifies this
      ensures skipFields == ss && policy == old(policy)
    {
      skipFields := ss;
    }

    /** The closure of SetPolicy: only the policy changes. */
    method SetPolicy(p: Sanitizer)
      modifies this
      ensures policy == p && skipFields == old(skipFields)
    {
      policy := p;
    }

    /** Running one Option closure on this Defender. */
    method ApplyOption(o: Option)
      modifies this
      ensures State() == Apply(old(State()), o)
    {
      match o
      case SetSkipFields(ss) => this.SetSkipFields(ss);
      case SetPolicy(p) => this.SetPolicy(p);
    }

    /** The scan of skipFields for a key equal to k. */
    method IsSkipField(k: string) returns (found: bool)
      ensures found <==> k in skipFields
    {
      found := false;
      var j := 0;
      while j < |skipFields|
        invariant 0 <= j <= |skipFields|
        invariant k !in skipFields[..j]
      {
        if k == skipFields[j] {
          found := true;
          break;
        }
        j := j + 1;
      }
      assert found || skipFields[..j] == skipFields;
    }

    method ConstructJson(lib: Lib, es: seq<Entry>) returns (buff: string)
      ensures buff == JsonCodec.ConstructJson(State(), lib, es)
      decreases es
    {
      buff := "{";
      var i := 0;
      while i < |es|
        invariant 0 <= i <= |es|
        invariant buff + JsonCodec.EntriesBuffer(State(), lib, es[i..]) == "{" + JsonCodec.EntriesBuffer(State(), lib, es)
      {
        var k, v := es[i].key, es[i].val;
        ghost var before := buff;
        buff := buff + ("\"" + k + "\":");
        var fnd := IsSkipField(k);
        var apnd: string;
        if fnd {
          apnd := JsonCodec.SkipText(lib, v) + ",";
        } else {
          apnd := BuildJsonApplyPolicy(lib, v);
        }
        buff := buff + apnd;
        JsonCodec.EntriesBufferStep(State(), lib, es, i, before, apnd);
        i := i + 1;
      }
      buff := DropLast(buff) + "}";
    }

    method BuildJsonApplyPolicy(lib: Lib, v: Value) returns (buff: string)
      ensures buff == JsonCodec.ValueText(State(), lib, v) + ","
      decreases v
    {
      match v
      case Obj(es) =>
        var bf := ConstructJson(lib, es);
        buff := bf + ",";
      case Arr(items) =>
        var bf := UnravelSlice(lib, items);
        buff := bf + ",";
      case Num(t) =>
        buff := policy(t) + ",";
      case Str(s) =>
        buff := lib.quote(policy(s)) + ",";
      case Null =>
        buff := "null" + ",";
      case Bool(b) =>
        buff := policy(JsonCodec.BoolText(b)) + ",";
    }

    method UnravelSlice(lib: Lib, items: seq<Value>) returns (buff: string)
      ensures buff == JsonCodec.UnravelSlice(State(), lib, items)
      decreases items
    {
      buff := "[";
      var i := 0;
      while i < |items|
        invariant 0 <= i <= |items|
        invariant buff + JsonCodec.ItemsBuffer(State(), lib, items[i..]) == "[" + JsonCodec.ItemsBuffer(State(), lib, items)
      {
        var piece := "";
        match items[i] {
          case Obj(es) =>
            var bf := ConstructJson(lib, es);
            piece := bf + ",";
          case Str(s) =>
            piece := lib.quote(policy(s)) + ",";
          case _ =>
        }
        JsonCodec.ItemsBufferStep(State(), lib, items, i, buff, piece);
        buff := buff + piece;
        i := i + 1;
      }
      buff := DropLast(buff) + "]";
    }

    method JsonToStringMap(lib: Lib, v: Value) returns (r: Result<string>)
      ensures r == JsonCodec.JsonToStringMap(State(), lib, v)
    {
      match v
      case Obj(es) =>
        var buff := ConstructJson(lib, es);
        r := Ok(buff);
      case Arr(items) =>
        var multiRec := "[";
        var i := 0;
        while i < |items|
          invariant 0 <= i <= |items|
          invariant forall j :: 0 <= j < i ==> items[j].Obj?
          invariant JsonCodec.AllObjects(items) ==>
            multiRec + JsonCodec.ObjectsBuffer(State(), lib, items[i..]) == "[" + JsonCodec.ObjectsBuffer(State(), lib, items)
        {
          if !items[i].Obj? {
            assert !JsonCodec.AllObjects(items);
            r := Err(NonObjectElement);
            return;
          }
          var buff := ConstructJson(lib, items[i].entries);
          JsonCodec.ObjectsBufferStep(State(), lib, items, i, multiRec, buff);
          multiRec := multiRec + buff + ",";
          i := i + 1;
        }
        assert items[i..] == [];
        assert JsonCodec.AllObjects(items);
        assert multiRec == "[" + JsonCodec.ObjectsBuffer(State(), lib, items);
        r := Ok(DropLast(multiRec) + "]");
      case _ =>
        r := Err(UnknownContentType);
    }

    /** The encode loop of HandleXFormEncoded over the fields url.ParseQuery produced;
        body is the raw request body. */
    method HandleXFormEncoded(lib: Lib, body: string, fields: seq<FormCodec.FormField>) returns (out: string)
      requires FormCodec.Parsed(fields)
      ensures out == FormCodec.EncodeForm(State(), lib, body, fields)
    {
      var bq := "";
      var i := 0;
      while i < |fields|
        invariant 0 <= i <= |fields|
        invariant FormCodec.Parsed(fields[i..])
        invariant bq + FormCodec.FormBuffer(State(), lib, fields[i..]) == FormCodec.FormBuffer(State(), lib, fields)
      {
        var k, v := fields[i].key, fields[i].values;
        ghost var before := bq;
        bq := bq + (k + "=");
        var fnd := IsSkipField(k);
        var piece: string;
        if fnd {
          piece := lib.queryEscape(v[0]);
        } else {
          piece := lib.queryEscape(policy(v[0]));
        }
        bq := bq + piece;
        bq := bq + "&";
        FormCodec.FormBufferStep(State(), lib, fields, i, before, piece);
        i := i + 1;
      }
      if |bq| > 1 {
        out := DropLast(bq);
      } else {
        out := body;
      }
    }

    /** The body of HandleMultiPartFormData's loop for a part it has read: the
        delimiter, the headers and the part's bytes, appended to the buffer. */
    method WritePart(lib: Lib, boundary: string, buf: string, part: MultipartCodec.Part) returns (multiPrtFrm: string)
      ensures multiPrtFrm == buf + MultipartCodec.PartText(lib, boundary, part)
    {
      // written: what this call has appended to buf so far
      ghost var written := "--" + boundary + "\r\n";
      multiPrtFrm := buf + ("--" + boundary + "\r\n");
      var piece: string;
      if part.fileName != "" {
        var fn := part.fileName;
        var mtype := part.contentType;
        piece := "Content-Disposition: form-data; name=\"" + part.formName + "\"; ";
        assert (buf + written) + piece == buf + (written + piece);
        multiPrtFrm, written := multiPrtFrm + piece, written + piece;
        piece := "filename=\"" + fn + "\";\r\n";
        assert (buf + written) + piece == buf + (written + piece);
        multiPrtFrm, written := multiPrtFrm + piece, written + piece;
        if mtype == "" {
          mtype := "application/octet-stream";
        }
        piece := "Content-Type: " + mtype + "\r\n\r\n";
        assert (buf + written) + piece == buf + (written + piece);
        multiPrtFrm, written := multiPrtFrm + piece, written + piece;
        piece := part.data + "\r\n";
      } else {
        piece := "Content-Disposition: form-data; name=\"" + part.formName + "\";\r\n\r\n";
        assert (buf + written) + piece == buf + (written + piece);
        multiPrtFrm, written := multiPrtFrm + piece, written + piece;
        if "password" == part.formName {
          piece := part.data + "\r\n";
        } else {
          piece := lib.strictSanitize(part.data) + "\r\n";
        }
      }
      assert (buf + written) + piece == buf + (written + piece);
      multiPrtFrm, written := multiPrtFrm + piece, written + piece;
    }

    /** The framing loop of HandleMultiPartFormData over the parts the reader yields for
        the content type ct (the reader stops at its first error, so parts ends there).
        It uses the strict policy, not this Defender's configuration. */
    method HandleMultiPartFormData(lib: Lib, ct: string, parts: seq<MultipartCodec.Part>) returns (r: Result<string>)
      ensures r == MultipartCodec.Reconstruct(lib, ct, parts)
    {
      var start := Index(ct, MultipartCodec.BoundaryParam) + 9;
      if start > |ct| {
        r := Err(BoundaryOutOfRange);
        return;
      }
      var boundary := ct[start..];
      assert MultipartCodec.Boundary(ct) == Ok(boundary);
      ghost var n := MultipartCodec.Min(MultipartCodec.MaxParts, |parts|);
      var multiPrtFrm := "";
      var i := 0;
      assert parts[0..n] == parts[..n];
      MultipartCodec.PrefixedEmpty(MultipartCodec.Frames(lib, boundary, parts[..n]));
      while i < MultipartCodec.MaxParts
        invariant 0 <= i <= n
        invariant MultipartCodec.Frames(lib, boundary, parts[..n]) ==
          MultipartCodec.Prefixed(multiPrtFrm, MultipartCodec.Frames(lib, boundary, parts[i..n]))
      {
        if i >= |parts| {
          break;
        }
        var part := parts[i];
        assert parts[i..n][0] == part && parts[i..n][1..] == parts[i + 1..n];
        if part.copyFailed {
          assert MultipartCodec.Frames(lib, boundary, parts[i..n]) == Err(PartReadFailed);
          r := Err(PartReadFailed);
          return;
        }
        if |part.data| <= 0 {
          assert MultipartCodec.Frames(lib, boundary, parts[i..n]) == Err(EmptyPart);
          r := Err(EmptyPart);
          return;
        }
        ghost var before := multiPrtFrm;
        multiPrtFrm := WritePart(lib, boundary, multiPrtFrm, part);
        MultipartCodec.PrefixedAssoc(before, MultipartCodec.PartText(lib, boundary, part),
          MultipartCodec.Frames(lib, boundary, parts[i + 1..n]));
        i := i + 1;
      }
      assert i == n && parts[i..n] == [];
      assert MultipartCodec.Frames(lib, boundary, parts[i..n]) == Ok("");
      assert multiPrtFrm + "" == multiPrtFrm;
      assert MultipartCodec.Frames(lib, boundary, parts[..n]) == Ok(multiPrtFrm);
      multiPrtFrm := multiPrtFrm + "--" + boundary + "--\r\n";
      r := Ok(multiPrtFrm);
    }

    /** The set of skip fields HandleGETRequest builds before its loop. */
    method SkipFieldSet() returns (fieldToSkip: map<string, bool>)
      ensures forall k :: (k in fieldToSkip && fieldToSkip[k]) <==> k in skipFields
    {
      fieldToSkip := map[];
      for j := 0 to |skipFields|
        invariant forall k :: k in fieldToSkip <==> k in skipFields[..j]
        invariant forall k :: k in fieldToSkip ==> fieldToSkip[k]
      {
        assert skipFields[..j + 1] == skipFields[..j] + [skipFields[j]];
        fieldToSkip := fieldToSkip[skipFields[j] := true];
      }
      assert skipFields[..|skipFields|] == skipFields;
    }

    /** The body of HandleGETRequest's loop for a key that is not skipped: Del, then Set
        for every value in turn, so only the last sanitised value stays. */
    method ReplaceValues(q: QueryValues, key: string, items: seq<string>)
      modifies q
      ensures q.entries == if items == [] then old(q.entries) - {key}
                           else old(q.entries)[key := [policy(Last(items))]]
    {
      q.Del(key);
      var j := 0;
      while j < |items|
        invariant 0 <= j <= |items|
        invariant q.entries == if j == 0 then old(q.entries) - {key} else old(q.entries)[key := [policy(items[j - 1])]]
      {
        q.Set(key, policy(items[j]));
        j := j + 1;
      }
    }

    /** HandleGETRequest on the parsed query q, visiting its keys in the map-iteration
        order given by order: no key is added, a skip-field key keeps its whole list,
        and every other key ends with just its sanitised last value (or is gone when
        its list was empty), whatever the order. */
    method HandleGETRequest(q: QueryValues, order: seq<string>)
      requires forall k :: k in order <==> k in q.entries
      requires Distinct(order)
      modifies q
      ensures Rewritten(skipFields, policy, old(q.entries), q.entries)
    {
      var fieldToSkip := SkipFieldSet();
      ghost var original := q.entries;
      var i := 0;
      while i < |order|
        invariant 0 <= i <= |order|
        invariant RewrittenUpTo(skipFields, policy, order, i, original, q.entries)
      {
        var key := order[i];
        var items := q.entries[key];
        if key in fieldToSkip && fieldToSkip[key] {
          SkipStep(skipFields, policy, order, i, original, q.entries);
        } else {
          ghost var now := q.entries;
          ReplaceValues(q, key, items);
          ReplaceStep(skipFields, policy, order, i, original, now, q.entries);
        }
        i := i + 1;
      }
      AllVisited(skipFields, policy, order, original, q.entries);
    }
  }
}
