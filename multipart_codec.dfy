/** The reconstruction loop of HandleMultiPartFormData, after the parts are read. */
module MultipartCodec {
  import opened Values
  import opened Text
  import opened Foreign

  /** A part as mime/multipart hands it over: its form name, its file name ("" for a
      text field), its Content-Type header ("" when absent), the bytes io.Copy read,
      and whether that copy failed. */
  datatype Part = Part(formName: string, fileName: string, contentType: string, data: string, copyFailed: bool)

  /** The loop reads at most this many parts. */
  const MaxParts: nat := 100

  const BoundaryParam := "boundary="

  function Min(a: nat, b: nat): nat { if a < b then a else b }

  /** The boundary: the content type after the first "boundary=". When there is none,
      strings.Index gives -1 and the slice starts at 8; a shorter content type makes the
      slice panic. */
  function Boundary(ct: string): (r: Result<string>)
    ensures r.Ok? <==> Contains(ct, BoundaryParam) || |ct| >= 8
    ensures r.Ok? ==> |r.value| <= |ct| && r.value == ct[|ct| - |r.value|..]
    ensures Contains(ct, BoundaryParam) ==>
      r.Ok? && OccursAt(ct, BoundaryParam, |ct| - |r.value| - 9) &&
      forall j :: 0 <= j < |ct| - |r.value| - 9 ==> !OccursAt(ct, BoundaryParam, j)
    ensures !Contains(ct, BoundaryParam) && |ct| >= 8 ==> r == Ok(ct[8..])
  {
    var start := Index(ct, BoundaryParam) + 9;
    if start <= |ct| then Ok(ct[start..]) else Err(BoundaryOutOfRange)
  }

  function MediaType(p: Part): string
  {
    if p.contentType == "" then "application/octet-stream" else p.contentType
  }

  /** What the loop writes for one part: the delimiter line, then for a file part its
      name and file name, its media type and its bytes unchanged, and for a text field
      its name and its text, strictly sanitised unless the name is exactly "password". */
  function PartText(lib: Lib, b: string, p: Part): string
  {
    if p.fileName != "" then
      ("--" + b + "\r\n") +
      ("Content-Disposition: form-data; name=\"" + p.formName + "\"; ") +
      ("filename=\"" + p.fileName + "\";\r\n") +
      ("Content-Type: " + MediaType(p) + "\r\n\r\n") +
      (p.data + "\r\n")
    else
      ("--" + b + "\r\n") +
      ("Content-Disposition: form-data; name=\"" + p.formName + "\";\r\n\r\n") +
      ((if p.formName == "password" then p.data else lib.strictSanitize(p.data)) + "\r\n")
  }

  /** Every part's text opens with the delimiter line and closes with CRLF, so the
      parts' texts laid end to end keep the multipart framing. */
  lemma PartTextDelimited(lib: Lib, b: string, p: Part)
    ensures var t := PartText(lib, b, p);
      |t| >= |b| + 6 && t[..|b| + 4] == "--" + b + "\r\n" && t[|t| - 2..] == "\r\n"
  {
  }

  /** A part the loop accepts: copied without error and not empty. */
  predicate Readable(p: Part)
  {
    !p.copyFailed && |p.data| > 0
  }

  /** The loop over the parts read: the first part that cannot be copied or is empty
      aborts everything. */
  function Frames(lib: Lib, b: string, ps: seq<Part>): Result<string>
  {
    if ps == [] then Ok("")
    else if ps[0].copyFailed then Err(PartReadFailed)
    else if |ps[0].data| == 0 then Err(EmptyPart)
    else
      match Frames(lib, b, ps[1..])
      case Ok(rest) => Ok(PartText(lib, b, ps[0]) + rest)
      case Err(e) => Err(e)
  }

  /** The outcome r with s written before its text. */
  function Prefixed(s: string, r: Result<string>): Result<string>
  {
    match r
    case Ok(t) => Ok(s + t)
    case Err(e) => Err(e)
  }

  lemma PrefixedEmpty(r: Result<string>)
    ensures Prefixed("", r) == r
  {
    if r.Ok? {
      assert "" + r.value == r.value;
    }
  }

  lemma PrefixedAssoc(s: string, t: string, r: Result<string>)
    ensures Prefixed(s, Prefixed(t, r)) == Prefixed(s + t, r)
  {
    if r.Ok? {
      assert s + (t + r.value) == (s + t) + r.value;
    }
  }

  /** The reconstructed body for a content type and the parts the reader yields. */
  function Reconstruct(lib: Lib, ct: string, parts: seq<Part>): Result<string>
  {
    match Boundary(ct)
    case Err(e) => Err(e)
    case Ok(b) =>
      match Frames(lib, b, parts[..Min(MaxParts, |parts|)])
      case Err(e) => Err(e)
      case Ok(body) => Ok(body + "--" + b + "--\r\n")
  }

  function PartTexts(lib: Lib, b: string, ps: seq<Part>): (r: seq<string>)
    ensures |r| == |ps|
  {
    if ps == [] then [] else [PartText(lib, b, ps[0])] + PartTexts(lib, b, ps[1..])
  }

  lemma {:induction false} PartTextsAt(lib: Lib, b: string, ps: seq<Part>, i: nat)
    requires i < |ps|
    ensures PartTexts(lib, b, ps)[i] == PartText(lib, b, ps[i])
  {
    if i > 0 {
      PartTextsAt(lib, b, ps[1..], i - 1);
    }
  }

  /** The loop succeeds exactly when every part is readable, and then writes the
      parts' texts in order; otherwise the error is that of the first unreadable part. */
  lemma {:induction false} FramesOutcome(lib: Lib, b: string, ps: seq<Part>)
    ensures Frames(lib, b, ps).Ok? <==> forall i :: 0 <= i < |ps| ==> Readable(ps[i])
    ensures Frames(lib, b, ps).Ok? ==> Frames(lib, b, ps).value == Concat(PartTexts(lib, b, ps))
    ensures forall k :: 0 <= k < |ps| && !Readable(ps[k]) && (forall i :: 0 <= i < k ==> Readable(ps[i])) ==>
      Frames(lib, b, ps) == Err(if ps[k].copyFailed then PartReadFailed else EmptyPart)
  {
    if ps != [] {
      FramesOutcome(lib, b, ps[1..]);
      forall i | 0 < i < |ps| ensures ps[1..][i - 1] == ps[i] { }
    }
  }

  /** With a usable boundary b, the body is b's delimiter before each of the first 100
      parts, their texts, and the closing delimiter, unless one of those parts is
      unreadable; parts after the hundredth are never looked at. */
  lemma ReconstructShape(lib: Lib, ct: string, parts: seq<Part>)
    ensures Boundary(ct).Err? ==> Reconstruct(lib, ct, parts) == Err(Boundary(ct).failure)
    ensures Boundary(ct).Ok? ==>
      var b, read := Boundary(ct).value, parts[..Min(MaxParts, |parts|)];
      if forall i :: 0 <= i < |read| ==> Readable(read[i])
      then Reconstruct(lib, ct, parts) == Ok(Concat(PartTexts(lib, b, read)) + "--" + b + "--\r\n")
      else Reconstruct(lib, ct, parts).Err?
    ensures Reconstruct(lib, ct, parts) == Reconstruct(lib, ct, parts[..Min(MaxParts, |parts|)])
  {
    if Boundary(ct).Ok? {
      FramesOutcome(lib, Boundary(ct).value, parts[..Min(MaxParts, |parts|)]);
    }
    var read := parts[..Min(MaxParts, |parts|)];
    assert read[..Min(MaxParts, |read|)] == read;
  }

  /** A part that is not sanitised: a file part, or the text field named "password". */
  predicate Exempt(p: Part)
  {
    p.fileName != "" || p.formName == "password"
  }

  /** When every part is a file or the password field, the strict policy is never
      consulted: any two sanitisers give the same reconstruction, so those bytes are
      copied unchanged. */
  lemma {:induction false} ExemptPartsIgnoreSanitizer(lib1: Lib, lib2: Lib, b: string, ps: seq<Part>)
    requires forall i :: 0 <= i < |ps| ==> Exempt(ps[i])
    ensures Frames(lib1, b, ps) == Frames(lib2, b, ps)
  {
    if ps != [] {
      ExemptPartsIgnoreSanitizer(lib1, lib2, b, ps[1..]);
      assert PartText(lib1, b, ps[0]) == PartText(lib2, b, ps[0]);
    }
  }
}
