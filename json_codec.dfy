/** What the Defender writes for a decoded JSON body: ConstructJson, buildJsonApplyPolicy,
    unravelSlice and jsonToStringMap of xss.go, as functions of the configuration. */
module JsonCodec {
  import opened Values
  import opened Text
  import opened Foreign
  import opened Options

  function BoolText(b: bool): string
  {
    if b then "true" else "false"
  }

  /** fmt's %q of a decoded value, which is what a skipped key's value becomes. A string
      and a json.Number (a Stringer) are quoted; nil and booleans get fmt's bad-verb text;
      arrays and objects go through fmt's reflection printer. */
  function SkipText(lib: Lib, v: Value): (r: string)
    ensures v.Str? || v.Num? ==> r == lib.quote(if v.Str? then v.s else v.text)
    ensures v.Null? || v.Bool? ==> |r| > 4 && r[..4] == "%!q("
  {
    match v
    case Str(s) => lib.quote(s)
    case Num(t) => lib.quote(t)
    case Null => "%!q(<nil>)"
    case Bool(b) => "%!q(bool=" + BoolText(b) + ")"
    case _ => lib.formatQ(v)
  }

  /** What buildJsonApplyPolicy writes for a value before its trailing ','. */
  function ValueText(d: Config, lib: Lib, v: Value): (r: string)
    ensures v.Obj? ==> |r| > 0 && r[|r| - 1] == '}'
    ensures v.Arr? ==> |r| > 0 && r[|r| - 1] == ']'
    decreases v
  {
    match v
    case Obj(es) => ConstructJson(d, lib, es)
    case Arr(items) => UnravelSlice(d, lib, items)
    case Num(t) => d.policy(t)
    case Str(s) => lib.quote(d.policy(s))
    case Null => "null"
    case Bool(b) => d.policy(BoolText(b))
  }

  /** One object entry without its trailing ','; the key is written raw. */
  function EntryText(d: Config, lib: Lib, e: Entry): string
    decreases e
  {
    "\"" + e.key + "\":" + (if e.key in d.skipFields then SkipText(lib, e.val) else ValueText(d, lib, e.val))
  }

  /** What the loop of ConstructJson writes after the '{'. */
  function EntriesBuffer(d: Config, lib: Lib, es: seq<Entry>): string
    decreases es, 0
  {
    if es == [] then "" else EntryText(d, lib, es[0]) + "," + EntriesBuffer(d, lib, es[1..])
  }

  /** ConstructJson: '{', the entries, the last character truncated, '}'. */
  function ConstructJson(d: Config, lib: Lib, es: seq<Entry>): (r: string)
    ensures |r| > 0 && r[|r| - 1] == '}'
    ensures es != [] <==> |r| > 1
    ensures es != [] ==> r[0] == '{'
    decreases es, 1
  {
    var buf := "{" + EntriesBuffer(d, lib, es);
    assert es != [] ==> |buf| > 1;
    DropLast(buf) + "}"
  }

  /** What the loop of unravelSlice writes after the '[': objects and strings, each with
      a ',', and nothing for any other element. */
  function ItemsBuffer(d: Config, lib: Lib, items: seq<Value>): string
    decreases items, 0
  {
    if items == [] then ""
    else
      ItemText(d, lib, items[0]) + ItemsBuffer(d, lib, items[1..])
  }

  /** What unravelSlice writes for one element: an object or a string and a ',';
      elements of any other kind are dropped. */
  function ItemText(d: Config, lib: Lib, v: Value): string
    decreases v
  {
    match v
    case Obj(es) => ConstructJson(d, lib, es) + ","
    case Str(s) => lib.quote(d.policy(s)) + ","
    case _ => ""
  }

  /** unravelSlice: '[', the kept elements, the last character truncated, ']'. */
  function UnravelSlice(d: Config, lib: Lib, items: seq<Value>): (r: string)
    ensures |r| > 0 && r[|r| - 1] == ']'
    decreases items, 1
  {
    DropLast("[" + ItemsBuffer(d, lib, items)) + "]"
  }

  predicate AllObjects(items: seq<Value>)
  {
    forall i :: 0 <= i < |items| ==> items[i].Obj?
  }

  /** What the array branch of jsonToStringMap writes after the '['. */
  function ObjectsBuffer(d: Config, lib: Lib, items: seq<Value>): string
    requires AllObjects(items)
  {
    if items == [] then "" else ConstructJson(d, lib, items[0].entries) + "," + ObjectsBuffer(d, lib, items[1..])
  }

  /** jsonToStringMap: the re-serialised top-level value, or why there is none. */
  function JsonToStringMap(d: Config, lib: Lib, v: Value): (r: Result<string>)
    ensures r == Err(UnknownContentType) <==> !v.Obj? && !v.Arr?
    ensures r == Err(NonObjectElement) <==> v.Arr? && exists i :: 0 <= i < |v.items| && !v.items[i].Obj?
    ensures r.Ok? <==> v.Obj? || (v.Arr? && AllObjects(v.items))
  {
    match v
    case Obj(es) => Ok(ConstructJson(d, lib, es))
    case Arr(items) =>
      if AllObjects(items) then Ok(DropLast("[" + ObjectsBuffer(d, lib, items)) + "]")
      else Err(NonObjectElement)
    case _ => Err(UnknownContentType)
  }

  // ---------------------------------------------------------------------------
  // One turn of each loop

  /** One turn of ConstructJson's loop appends the next entry and its ','. */
  lemma EntriesBufferStep(d: Config, lib: Lib, es: seq<Entry>, i: nat, before: string, apnd: string)
    requires i < |es|
    requires apnd == (if es[i].key in d.skipFields then SkipText(lib, es[i].val) else ValueText(d, lib, es[i].val)) + ","
    ensures (before + ("\"" + es[i].key + "\":")) + apnd + EntriesBuffer(d, lib, es[i + 1..])
         == before + EntriesBuffer(d, lib, es[i..])
  {
    assert es[i..][0] == es[i] && es[i..][1..] == es[i + 1..];
    var tail := EntriesBuffer(d, lib, es[i + 1..]);
    assert EntriesBuffer(d, lib, es[i..]) == EntryText(d, lib, es[i]) + "," + tail;
  }

  /** One turn of unravelSlice's loop appends what the next element contributes. */
  lemma ItemsBufferStep(d: Config, lib: Lib, items: seq<Value>, i: nat, before: string, piece: string)
    requires i < |items|
    requires piece == ItemText(d, lib, items[i])
    ensures (before + piece) + ItemsBuffer(d, lib, items[i + 1..]) == before + ItemsBuffer(d, lib, items[i..])
  {
    assert items[i..][0] == items[i] && items[i..][1..] == items[i + 1..];
  }

  /** One turn of the array loop of jsonToStringMap appends the next object and its ','. */
  lemma ObjectsBufferStep(d: Config, lib: Lib, items: seq<Value>, i: nat, before: string, text: string)
    requires i < |items| && items[i].Obj?
    requires text == ConstructJson(d, lib, items[i].entries)
    ensures AllObjects(items[i + 1..]) ==>
      AllObjects(items[i..]) &&
      before + text + "," + ObjectsBuffer(d, lib, items[i + 1..]) == before + ObjectsBuffer(d, lib, items[i..])
  {
    assert items[i..][0] == items[i] && items[i..][1..] == items[i + 1..];
  }

  // ---------------------------------------------------------------------------
  // The shape of the output

  function EntryTexts(d: Config, lib: Lib, es: seq<Entry>): seq<string>
  {
    if es == [] then [] else [EntryText(d, lib, es[0])] + EntryTexts(d, lib, es[1..])
  }

  /** The objects and strings of items, in their original order. */
  function Kept(items: seq<Value>): (r: seq<Value>)
    ensures |r| <= |items|
    ensures forall x :: x in r <==> x in items && (x.Obj? || x.Str?)
  {
    if items == [] then []
    else if items[0].Obj? || items[0].Str? then [items[0]] + Kept(items[1..])
    else Kept(items[1..])
  }

  /** How an array element that unravelSlice keeps is written. */
  function ElementText(d: Config, lib: Lib, v: Value): string
    requires v.Obj? || v.Str?
  {
    if v.Obj? then ConstructJson(d, lib, v.entries) else lib.quote(d.policy(v.s))
  }

  function ElementTexts(d: Config, lib: Lib, items: seq<Value>): seq<string>
    requires forall i :: 0 <= i < |items| ==> items[i].Obj? || items[i].Str?
  {
    if items == [] then [] else [ElementText(d, lib, items[0])] + ElementTexts(d, lib, items[1..])
  }

  function ObjectTexts(d: Config, lib: Lib, items: seq<Value>): seq<string>
    requires AllObjects(items)
  {
    if items == [] then [] else [ConstructJson(d, lib, items[0].entries)] + ObjectTexts(d, lib, items[1..])
  }

  lemma {:induction false} EntriesBufferTerminated(d: Config, lib: Lib, es: seq<Entry>)
    ensures EntriesBuffer(d, lib, es) == Terminated(",", EntryTexts(d, lib, es))
  {
    if es != [] {
      EntriesBufferTerminated(d, lib, es[1..]);
    }
  }

  /** The i-th entry text is the key, raw and quoted, a ':', and then either fmt's %q
      of the raw value, when the key is exactly one of the skip fields, or the value
      encoded through the policy. */
  lemma {:induction false} EntryTextsAt(d: Config, lib: Lib, es: seq<Entry>, i: nat)
    requires i < |es|
    ensures |EntryTexts(d, lib, es)| == |es|
    ensures EntryTexts(d, lib, es)[i] == "\"" + es[i].key + "\":" +
      (if es[i].key in d.skipFields then SkipText(lib, es[i].val) else ValueText(d, lib, es[i].val))
  {
    if i > 0 {
      EntryTextsAt(d, lib, es[1..], i - 1);
    } else if |es| > 1 {
      EntryTextsAt(d, lib, es[1..], 0);
    }
  }

  /** An object writes '{', its entries joined by ',' with no trailing ',', and '}';
      an empty object loses its '{' to the truncation and writes only '}'. */
  lemma ConstructJsonShape(d: Config, lib: Lib, es: seq<Entry>)
    ensures ConstructJson(d, lib, es) ==
      if es == [] then "}" else "{" + Join(",", EntryTexts(d, lib, es)) + "}"
  {
    EntriesBufferTerminated(d, lib, es);
    if es != [] {
      DropTrailingSeparator("{", ',', EntryTexts(d, lib, es));
    }
  }

  lemma {:induction false} ItemsBufferTerminated(d: Config, lib: Lib, items: seq<Value>)
    ensures ItemsBuffer(d, lib, items) == Terminated(",", ElementTexts(d, lib, Kept(items)))
  {
    if items != [] {
      ItemsBufferTerminated(d, lib, items[1..]);
      if items[0].Obj? || items[0].Str? {
        assert Kept(items) == [items[0]] + Kept(items[1..]);
        assert ([items[0]] + Kept(items[1..]))[1..] == Kept(items[1..]);
      }
    }
  }

  /** A nested array writes '[', its objects and strings in their original order joined
      by ',', and ']'; every other element is dropped, and when nothing is kept the '['
      is truncated away, leaving ']'. */
  lemma UnravelSliceShape(d: Config, lib: Lib, items: seq<Value>)
    ensures UnravelSlice(d, lib, items) ==
      if Kept(items) == [] then "]" else "[" + Join(",", ElementTexts(d, lib, Kept(items))) + "]"
  {
    ItemsBufferTerminated(d, lib, items);
    if Kept(items) != [] {
      DropTrailingSeparator("[", ',', ElementTexts(d, lib, Kept(items)));
    }
  }

  lemma {:induction false} ObjectsBufferTerminated(d: Config, lib: Lib, items: seq<Value>)
    requires AllObjects(items)
    ensures ObjectsBuffer(d, lib, items) == Terminated(",", ObjectTexts(d, lib, items))
  {
    if items != [] {
      ObjectsBufferTerminated(d, lib, items[1..]);
    }
  }

  /** A top-level object is written by ConstructJson; a top-level array of objects is
      '[' + the objects joined by ',' + ']' (just ']' when empty); a non-object element
      is an error, and so is every other top-level value. */
  lemma JsonToStringMapShape(d: Config, lib: Lib, v: Value)
    ensures v.Obj? ==> JsonToStringMap(d, lib, v) == Ok(ConstructJson(d, lib, v.entries))
    ensures v.Arr? && AllObjects(v.items) ==>
      JsonToStringMap(d, lib, v) == Ok(if v.items == [] then "]" else "[" + Join(",", ObjectTexts(d, lib, v.items)) + "]")
    ensures !v.Obj? && !v.Arr? ==> JsonToStringMap(d, lib, v) == Err(UnknownContentType)
  {
    if v.Arr? && AllObjects(v.items) {
      assert JsonToStringMap(d, lib, v) == Ok(DropLast("[" + ObjectsBuffer(d, lib, v.items)) + "]");
      ObjectsBufferTerminated(d, lib, v.items);
      if v.items != [] {
        DropTrailingSeparator("[", ',', ObjectTexts(d, lib, v.items));
      } else {
        assert DropLast("[" + ObjectsBuffer(d, lib, v.items)) == "";
        assert "" + "]" == "]";
      }
    }
  }

  // ---------------------------------------------------------------------------
  // What the policy can and cannot reach

  predicate AllKeysSkipped(skip: seq<string>, es: seq<Entry>)
  {
    forall i :: 0 <= i < |es| ==> es[i].key in skip
  }

  /** An object whose every key is a skip field is written without consulting the
      policy at all: any two policies give the same text. */
  lemma {:induction false} SkippedObjectIgnoresPolicy(skip: seq<string>, p1: Sanitizer, p2: Sanitizer, lib: Lib, es: seq<Entry>)
    requires AllKeysSkipped(skip, es)
    ensures ConstructJson(Config(skip, p1), lib, es) == ConstructJson(Config(skip, p2), lib, es)
  {
    SkippedEntriesIgnorePolicy(skip, p1, p2, lib, es);
  }

  lemma {:induction false} SkippedEntriesIgnorePolicy(skip: seq<string>, p1: Sanitizer, p2: Sanitizer, lib: Lib, es: seq<Entry>)
    requires AllKeysSkipped(skip, es)
    ensures EntriesBuffer(Config(skip, p1), lib, es) == EntriesBuffer(Config(skip, p2), lib, es)
  {
    if es != [] {
      SkippedEntriesIgnorePolicy(skip, p1, p2, lib, es[1..]);
    }
  }

  /** The tree with every leaf the encoder sanitises (strings and number texts not under
      a skipped key) replaced by its sanitised version. */
  function SanitizeLeaves(d: Config, v: Value): Value
    decreases v
  {
    match v
    case Str(s) => Str(d.policy(s))
    case Num(t) => Num(d.policy(t))
    case Arr(items) => Arr(SanitizeItems(d, items))
    case Obj(es) => Obj(SanitizeEntries(d, es))
    case _ => v
  }

  function SanitizeItems(d: Config, items: seq<Value>): (r: seq<Value>)
    ensures |r| == |items|
    decreases items
  {
    if items == [] then [] else [SanitizeLeaves(d, items[0])] + SanitizeItems(d, items[1..])
  }

  function SanitizeEntries(d: Config, es: seq<Entry>): (r: seq<Entry>)
    ensures |r| == |es|
    decreases es
  {
    if es == [] then []
    else
      var e := es[0];
      var e' := if e.key in d.skipFields then e else Entry(e.key, SanitizeLeaves(d, e.val));
      [e'] + SanitizeEntries(d, es[1..])
  }

  /** With an idempotent policy, re-sanitising a document whose sanitised leaves were
      already sanitised gives byte-identical output: every leaf the encoder writes
      outside a skipped key reaches the output only through the policy. */
  lemma {:induction false} ResanitizeIsStable(d: Config, lib: Lib, v: Value)
    requires Idempotent(d.policy)
    ensures ValueText(d, lib, SanitizeLeaves(d, v)) == ValueText(d, lib, v)
    decreases v, 2
  {
    match v
    case Str(s) =>
      assert d.policy(d.policy(s)) == d.policy(s);
    case Num(t) =>
      assert d.policy(d.policy(t)) == d.policy(t);
    case Arr(items) =>
      ResanitizeItemsIsStable(d, lib, items);
    case Obj(es) =>
      ResanitizeEntriesIsStable(d, lib, es);
    case _ =>
  }

  lemma {:induction false} ResanitizeEntriesIsStable(d: Config, lib: Lib, es: seq<Entry>)
    requires Idempotent(d.policy)
    ensures EntriesBuffer(d, lib, SanitizeEntries(d, es)) == EntriesBuffer(d, lib, es)
    decreases es, 1
  {
    if es != [] {
      var e := es[0];
      if e.key !in d.skipFields {
        ResanitizeIsStable(d, lib, e.val);
      }
      ResanitizeEntriesIsStable(d, lib, es[1..]);
      assert SanitizeEntries(d, es)[1..] == SanitizeEntries(d, es[1..]);
    }
  }

  lemma {:induction false} ResanitizeItemsIsStable(d: Config, lib: Lib, items: seq<Value>)
    requires Idempotent(d.policy)
    ensures ItemsBuffer(d, lib, SanitizeItems(d, items)) == ItemsBuffer(d, lib, items)
    decreases items, 1
  {
    if items != [] {
      var x := items[0];
      match x {
        case Obj(es) =>
          ResanitizeEntriesIsStable(d, lib, es);
        case Str(s) =>
          assert d.policy(d.policy(s)) == d.policy(s);
        case _ =>
      }
      assert ItemText(d, lib, SanitizeLeaves(d, x)) == ItemText(d, lib, x);
      ResanitizeItemsIsStable(d, lib, items[1..]);
      assert SanitizeItems(d, items)[1..] == SanitizeItems(d, items[1..]);
    }
  }
}
