/**
 * The pure part of `GmailClient` (gmail/gmail_client.py): reading the
 * subject header and the text body out of a message returned by the Gmail
 * API with `format="full"`.  A JSON object whose field may be absent is an
 * explicit record here; an absent field takes the default the source reads
 * it with (`""` for `mimeType`, no data for `body.data`, `[]` for `parts`).
 */
module GmailClient {
  import opened Wrappers
  import opened Bytes
  import opened PyStr
  import Base64
  import Utf8

  /** One entry of `payload.headers`. */
  datatype Header = Header(name: string, value: string)

  /** A node of the part tree: `mimeType`, `body.data` and the nested `parts`. */
  datatype Part = Part(mimeType: string, data: Option<string>, parts: seq<Part>)

  /** The top-level `payload`; `headers` is read without a default, so it may be missing. */
  datatype Payload = Payload(headers: Option<seq<Header>>, data: Option<string>, parts: seq<Part>)

  datatype Message = Message(payload: Option<Payload>)

  /** The `KeyError`s that `extract_subject` raises on a message without payload or headers. */
  datatype KeyError = MissingPayload | MissingHeaders

  /** Python truthiness of `body.get("data")`: present and non-empty. */
  predicate HasData(data: Option<string>) {
    data.Some? && data.value != ""
  }

  // ---------------------------------------------------------------------
  // extract_subject

  predicate IsSubjectHeader(h: Header) {
    Lower(h.name) == "subject"
  }

  /** The loop over `headers`: the value of the first subject header, else `""`. */
  function FirstSubject(headers: seq<Header>): string {
    if headers == [] then ""
    else if IsSubjectHeader(headers[0]) then headers[0].value
    else FirstSubject(headers[1..])
  }

  /** `extract_subject(msg)`. */
  function ExtractSubject(msg: Message): Result<string, KeyError> {
    match msg.payload
    case None => Failure(MissingPayload)
    case Some(p) =>
      match p.headers
      case None => Failure(MissingHeaders)
      case Some(hs) => Success(FirstSubject(hs))
  }

  /** The subject is the value of the first header named "subject" in any case. */
  lemma {:induction false} SubjectIsFirstMatch(headers: seq<Header>, i: int)
    requires 0 <= i < |headers| && IsSubjectHeader(headers[i])
    requires forall j :: 0 <= j < i ==> !IsSubjectHeader(headers[j])
    ensures FirstSubject(headers) == headers[i].value
    decreases i
  {
    if i > 0 {
      SubjectIsFirstMatch(headers[1..], i - 1);
    }
  }

  /** Without a subject header the subject is empty. */
  lemma {:induction false} NoSubjectIsEmpty(headers: seq<Header>)
    requires forall j :: 0 <= j < |headers| ==> !IsSubjectHeader(headers[j])
    ensures FirstSubject(headers) == ""
    decreases |headers|
  {
    if headers != [] {
      NoSubjectIsEmpty(headers[1..]);
    }
  }

  /** `extract_subject` fails exactly when the payload or its headers are missing. */
  lemma ExtractSubjectFails(msg: Message)
    ensures ExtractSubject(msg).Failure? <==> msg.payload.None? || msg.payload.value.headers.None?
    ensures msg.payload.None? ==> ExtractSubject(msg) == Failure(MissingPayload)
  {
  }

  // ---------------------------------------------------------------------
  // extract_body

  /** A part `walk_parts` returns: a text/plain or text/html part (by prefix) that carries data. */
  predicate IsTextCandidate(p: Part) {
    HasData(p.data) && (StartsWith(p.mimeType, "text/plain") || StartsWith(p.mimeType, "text/html"))
  }

  /** `walk_parts(parts_list)`: a depth-first, first-match search of the part tree. */
  function WalkParts(parts: seq<Part>): (r: Option<string>)
    ensures r.Some? ==> r.value != ""
    decreases parts
  {
    if parts == [] then None
    else
      var part := parts[0];
      assert part in parts;
      if IsTextCandidate(part) then part.data
      else
        var nested := if part.parts != [] then WalkParts(part.parts) else None;
        if HasData(nested) then nested else WalkParts(parts[1..])
  }

  /** Steps 1 and 2: the data to decode, inline `payload.body.data` first, else the part walk. */
  function BodyData(msg: Message): (r: Option<string>)
    ensures r.Some? ==> r.value != ""
  {
    var inline := if msg.payload.Some? then msg.payload.value.data else None;
    if HasData(inline) then inline
    else WalkParts(if msg.payload.Some? then msg.payload.value.parts else [])
  }

  /** `bytes.decode("utf-8", errors="ignore")` of `base64.urlsafe_b64decode(data)`. */
  function DecodeBody(data: string): Result<string, Base64.DecodeError> {
    match Base64.UrlSafeB64Decode(data)
    case Failure(e) => Failure(e)
    case Success(bytes) => Success(Utf8.DecodeIgnore(bytes))
  }

  /** `extract_body(msg)`; it raises only where the base64 decoder does. */
  function ExtractBody(msg: Message): Result<string, Base64.DecodeError> {
    match BodyData(msg)
    case None => Success("")
    case Some(data) => DecodeBody(data)
  }

  // ---------------------------------------------------------------------
  // The part walk against an independent reference: the first candidate in pre-order

  /** The parts of the tree in depth-first pre-order: each part, then its nested parts, then its later siblings. */
  function PreOrder(parts: seq<Part>): seq<Part>
    decreases parts
  {
    if parts == [] then []
    else
      assert parts[0] in parts;
      [parts[0]] + PreOrder(parts[0].parts) + PreOrder(parts[1..])
  }

  /** The data of the first candidate in a flat list of parts. */
  function FirstCandidate(ps: seq<Part>): Option<string> {
    if ps == [] then None
    else if IsTextCandidate(ps[0]) then ps[0].data
    else FirstCandidate(ps[1..])
  }

  lemma {:induction false} FirstCandidateAppend(a: seq<Part>, b: seq<Part>)
    ensures FirstCandidate(a + b) == if FirstCandidate(a).Some? then FirstCandidate(a) else FirstCandidate(b)
    decreases |a|
  {
    if a == [] {
      assert a + b == b;
    } else {
      assert (a + b)[0] == a[0] && (a + b)[1..] == a[1..] + b;
      FirstCandidateAppend(a[1..], b);
    }
  }

  /** `FirstCandidate` returns the data of the earliest candidate, and `None` when there is none. */
  lemma {:induction false} FirstCandidateIndex(ps: seq<Part>)
    ensures FirstCandidate(ps).None? <==> forall i :: 0 <= i < |ps| ==> !IsTextCandidate(ps[i])
    ensures FirstCandidate(ps).Some? ==>
      exists i :: 0 <= i < |ps| && IsTextCandidate(ps[i]) && FirstCandidate(ps) == ps[i].data
        && forall j :: 0 <= j < i ==> !IsTextCandidate(ps[j])
    decreases |ps|
  {
    if ps != [] {
      FirstCandidateIndex(ps[1..]);
      if !IsTextCandidate(ps[0]) && FirstCandidate(ps[1..]).Some? {
        var i :| 0 <= i < |ps[1..]| && IsTextCandidate(ps[1..][i]) && FirstCandidate(ps[1..]) == ps[1..][i].data
          && forall j :: 0 <= j < i ==> !IsTextCandidate(ps[1..][j]);
        assert IsTextCandidate(ps[i + 1]) && FirstCandidate(ps) == ps[i + 1].data;
        assert forall j :: 0 <= j < i + 1 ==> !IsTextCandidate(ps[j]) by {
          forall j | 0 < j < i + 1 ensures !IsTextCandidate(ps[j]) {
            assert ps[j] == ps[1..][j - 1];
          }
        }
      }
      if FirstCandidate(ps).None? {
        forall i | 0 < i < |ps| ensures !IsTextCandidate(ps[i]) {
          assert ps[i] == ps[1..][i - 1];
        }
      }
    }
  }

  /** `walk_parts` returns exactly the data of the first candidate in depth-first pre-order. */
  lemma {:induction false} WalkPartsIsPreOrderSearch(parts: seq<Part>)
    ensures WalkParts(parts) == FirstCandidate(PreOrder(parts))
    decreases parts
  {
    if parts != [] {
      var part := parts[0];
      assert part in parts;
      var flat := PreOrder(parts);
      assert flat == [part] + (PreOrder(part.parts) + PreOrder(parts[1..]));
      assert ([part] + (PreOrder(part.parts) + PreOrder(parts[1..])))[1..] == PreOrder(part.parts) + PreOrder(parts[1..]);
      if !IsTextCandidate(part) {
        WalkPartsIsPreOrderSearch(part.parts);
        WalkPartsIsPreOrderSearch(parts[1..]);
        FirstCandidateAppend(PreOrder(part.parts), PreOrder(parts[1..]));
      }
    }
  }

  // ---------------------------------------------------------------------
  // Properties of extract_body

  /** Non-empty inline data is decoded alone: the parts are never consulted. */
  lemma InlineDataWins(headers: Option<seq<Header>>, data: Option<string>, parts: seq<Part>, other: seq<Part>)
    requires HasData(data)
    ensures ExtractBody(Message(Some(Payload(headers, data, parts)))) == DecodeBody(data.value)
    ensures ExtractBody(Message(Some(Payload(headers, data, parts))))
         == ExtractBody(Message(Some(Payload(headers, data, other))))
  {
  }

  /** Empty or absent inline data falls back to the part walk. */
  lemma MissingInlineUsesParts(headers: Option<seq<Header>>, data: Option<string>, parts: seq<Part>)
    requires !HasData(data)
    ensures ExtractBody(Message(Some(Payload(headers, data, parts))))
         == match FirstCandidate(PreOrder(parts)) case None => Success("") case Some(d) => DecodeBody(d)
  {
    WalkPartsIsPreOrderSearch(parts);
  }

  /** With no candidate anywhere, the body is `""`; a message without payload has an empty body too. */
  lemma NoCandidateIsEmpty(headers: Option<seq<Header>>, data: Option<string>, parts: seq<Part>)
    requires !HasData(data)
    requires forall i :: 0 <= i < |PreOrder(parts)| ==> !IsTextCandidate(PreOrder(parts)[i])
    ensures ExtractBody(Message(Some(Payload(headers, data, parts)))) == Success("")
    ensures ExtractBody(Message(None)) == Success("")
  {
    WalkPartsIsPreOrderSearch(parts);
    FirstCandidateIndex(PreOrder(parts));
  }

  /** The search itself never fails: `extract_body` fails only when the chosen data does not decode. */
  lemma ExtractBodyFailsOnlyInDecoding(msg: Message)
    ensures ExtractBody(msg).Failure? <==>
      BodyData(msg).Some? && Base64.UrlSafeB64Decode(BodyData(msg).value).Failure?
  {
  }

  /** Whatever text was encoded is what comes out: the body extractor inverts UTF-8 then base64 encoding. */
  lemma ExtractBodyRoundTrip(msg: Message, text: string)
    requires BodyData(msg) == Some(Base64.UrlSafeB64Encode(Utf8.Encode(text)))
    ensures ExtractBody(msg) == Success(text)
  {
    Base64.DecodeEncode(Utf8.Encode(text));
    Utf8.DecodeEncode(text);
  }

  /**
   * The nested example: only multipart parts at the top, and the first
   * nested part is text/html with data "SGVsbG8=", so the body is "Hello".
   */
  lemma NestedHtmlExample()
    ensures ExtractBody(Message(Some(Payload(Some([]), None, [
      Part("multipart/alternative", None, [
        Part("text/html", Some("SGVsbG8="), []),
        Part("text/plain", Some("V29ybGQ="), [])])]))))
      == Success("Hello")
  {
    var inner := [Part("text/html", Some("SGVsbG8="), []), Part("text/plain", Some("V29ybGQ="), [])];
    var parts := [Part("multipart/alternative", None, inner)];
    assert StartsWith("text/html", "text/html");
    assert IsTextCandidate(inner[0]);
    assert WalkParts(inner) == Some("SGVsbG8=");
    assert !IsTextCandidate(parts[0]);
    assert WalkParts(parts) == Some("SGVsbG8=");
    Base64.DecodeHello();
    var hello: seq<Byte> := [72, 101, 108, 108, 111];
    Utf8.DecodeAscii(hello);
    assert Utf8.DecodeIgnore(hello) == "Hello";
  }

  /** An attachment carrying data is skipped in favour of a later text part. */
  lemma AttachmentSkipped(att: string, text: string)
    requires att != "" && text != ""
    ensures WalkParts([Part("application/pdf", Some(att), []), Part("text/plain; charset=utf-8", Some(text), [])])
         == Some(text)
  {
    assert "application/pdf"[..10][0] != "text/plain"[0];
    assert "application/pdf"[..9][0] != "text/html"[0];
    assert StartsWith("text/plain; charset=utf-8", "text/plain");
    var ps := [Part("application/pdf", Some(att), []), Part("text/plain; charset=utf-8", Some(text), [])];
    assert ps[1..] == [Part("text/plain; charset=utf-8", Some(text), [])];
  }
}
