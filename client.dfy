/**
 * The outbound half of the WhatsApp Cloud API client: splitting a long reply into
 * chunks that fit one message, sending those chunks in order, and checking the
 * signature on an inbound webhook delivery.
 */
module WhatsAppClient {
  import opened Wrappers
  import opened JsString

  /** The platform's limit on one text message body. */
  const MAX_MESSAGE_LENGTH: int := 4096

  /** The margin kept free below that limit when chunking a reply. */
  const CHUNK_MARGIN: int := 96

  // ---------------------------------------------------------------------------
  // Choosing where to cut

  /** `i` is the last start of `pat` in `s` at or before `limit`. */
  ghost predicate LastAtOrBefore(s: string, pat: string, limit: int, i: int) {
    0 <= i <= limit && OccursAt(s, pat, i)
    && forall j :: i < j <= limit ==> !OccursAt(s, pat, j)
  }

  /** `j` lies in the upper half of a chunk: not below `maxLength * 0.5`, not past `maxLength`. */
  predicate InUpperHalf(j: int, maxLength: int) {
    maxLength <= 2 * j && j <= maxLength
  }

  /** `pat` starts nowhere in the upper half of the first `maxLength` positions of `s`. */
  ghost predicate NoneInUpperHalf(s: string, pat: string, maxLength: int) {
    forall j :: InUpperHalf(j, maxLength) ==> !OccursAt(s, pat, j)
  }

  /** Where `splitMessage` cuts a remainder longer than `maxLength`. */
  function SplitPoint(rest: string, maxLength: int): (k: int)
    requires 1 <= maxLength < |rest|
    ensures 1 <= k <= maxLength
  {
    var paragraph := LastIndexOf(rest, "\n\n", maxLength);
    var line := if 2 * paragraph < maxLength then LastIndexOf(rest, "\n", maxLength) else paragraph;
    var space := if 2 * line < maxLength then LastIndexOf(rest, " ", maxLength) else line;
    if space < 1 then maxLength else space
  }

  /**
   * The cut is at the last paragraph break ("\n\n") at or before `maxLength` if
   * that lies in the upper half; else at the last line break if that lies in the
   * upper half; else at the last space at any index from 1 on; else at exactly
   * `maxLength`.
   */
  lemma SplitPointChoice(rest: string, maxLength: int)
    requires 1 <= maxLength < |rest|
    ensures var k := SplitPoint(rest, maxLength);
      || (InUpperHalf(k, maxLength) && LastAtOrBefore(rest, "\n\n", maxLength, k))
      || (NoneInUpperHalf(rest, "\n\n", maxLength)
          && InUpperHalf(k, maxLength) && LastAtOrBefore(rest, "\n", maxLength, k))
      || (NoneInUpperHalf(rest, "\n\n", maxLength) && NoneInUpperHalf(rest, "\n", maxLength)
          && LastAtOrBefore(rest, " ", maxLength, k))
      || (NoneInUpperHalf(rest, "\n\n", maxLength) && NoneInUpperHalf(rest, "\n", maxLength)
          && (forall j :: 1 <= j <= maxLength ==> !OccursAt(rest, " ", j))
          && k == maxLength)
  {
    LastIndexOfSpec(rest, "\n\n", maxLength);
    LastIndexOfSpec(rest, "\n", maxLength);
    LastIndexOfSpec(rest, " ", maxLength);
  }

  // ---------------------------------------------------------------------------
  // The chunks and the whitespace dropped between them

  /**
   * The chunks the splitting loop produces from `rest`: a remainder that fits is
   * the last chunk; a longer one is cut at its split point and the part after the
   * cut, with its leading whitespace trimmed, is split in turn.
   */
  function Pieces(rest: string, maxLength: int): (chunks: seq<string>)
    requires 1 <= maxLength
    decreases |rest|
  {
    if |rest| == 0 then []
    else if |rest| <= maxLength then [rest]
    else
      var k := SplitPoint(rest, maxLength);
      [rest[..k]] + Pieces(TrimStart(rest[k..]), maxLength)
  }

  /** The whitespace that the splitting loop drops after each of the chunks of `Pieces`. */
  function Gaps(rest: string, maxLength: int): seq<string>
    requires 1 <= maxLength
    decreases |rest|
  {
    if |rest| == 0 then []
    else if |rest| <= maxLength then [""]
    else
      var k := SplitPoint(rest, maxLength);
      [LeadingWhitespace(rest[k..])] + Gaps(TrimStart(rest[k..]), maxLength)
  }

  /** `chunks[0] + gaps[0] + chunks[1] + gaps[1] + ...` */
  function Interleave(chunks: seq<string>, gaps: seq<string>): string
    requires |chunks| == |gaps|
  {
    if chunks == [] then "" else chunks[0] + gaps[0] + Interleave(chunks[1..], gaps[1..])
  }

  /** What `splitMessage(text, maxLength)` returns. */
  function Split(text: string, maxLength: int): seq<string>
    requires 1 <= maxLength
  {
    if |text| <= maxLength then [text] else Pieces(text, maxLength)
  }

  /** The whitespace `splitMessage(text, maxLength)` drops after each chunk. */
  function SplitGaps(text: string, maxLength: int): seq<string>
    requires 1 <= maxLength
  {
    if |text| <= maxLength then [""] else Gaps(text, maxLength)
  }

  /** Every chunk is non-empty and at most `maxLength` long. */
  predicate ChunksFit(chunks: seq<string>, maxLength: int) {
    forall i :: 0 <= i < |chunks| ==> 1 <= |chunks[i]| <= maxLength
  }

  /** Every chunk after the first starts with a character that is not whitespace. */
  predicate LaterChunksStartNonWhitespace(chunks: seq<string>) {
    forall i :: 1 <= i < |chunks| ==> chunks[i] != [] && !IsWhitespace(chunks[i][0])
  }

  /** Every gap consists of whitespace only. */
  predicate GapsAreWhitespace(gaps: seq<string>) {
    forall i :: 0 <= i < |gaps| ==> AllWhitespace(gaps[i])
  }

  // One-step facts about prepending a chunk and its gap, kept as separate
  // lemmas so that the inductive proofs below unfold as little as possible.

  lemma ConsFits(chunk: string, chunks: seq<string>, maxLength: int)
    requires 1 <= |chunk| <= maxLength && ChunksFit(chunks, maxLength)
    ensures ChunksFit([chunk] + chunks, maxLength)
  {
  }

  lemma ConsStartsNonWhitespace(chunk: string, chunks: seq<string>)
    requires LaterChunksStartNonWhitespace(chunks)
    requires chunks != [] ==> chunks[0] != [] && !IsWhitespace(chunks[0][0])
    ensures LaterChunksStartNonWhitespace([chunk] + chunks)
  {
  }

  lemma ConsGaps(gap: string, gaps: seq<string>)
    requires AllWhitespace(gap) && GapsAreWhitespace(gaps)
    ensures GapsAreWhitespace([gap] + gaps)
  {
  }

  lemma InterleaveCons(chunk: string, gap: string, chunks: seq<string>, gaps: seq<string>)
    requires |chunks| == |gaps|
    ensures Interleave([chunk] + chunks, [gap] + gaps) == chunk + gap + Interleave(chunks, gaps)
  {
  }

  /** One turn of the splitting loop: the first chunk, the whitespace after it, and what is left. */
  lemma PiecesStep(rest: string, maxLength: int)
    requires 1 <= maxLength < |rest|
    ensures var k := SplitPoint(rest, maxLength);
      var next := TrimStart(rest[k..]);
      var gap := LeadingWhitespace(rest[k..]);
      && Pieces(rest, maxLength) == [rest[..k]] + Pieces(next, maxLength)
      && Gaps(rest, maxLength) == [gap] + Gaps(next, maxLength)
      && rest == rest[..k] + gap + next
      && AllWhitespace(gap)
      && (next == [] || !IsWhitespace(next[0]))
  {
    var k := SplitPoint(rest, maxLength);
    PiecesUnfold(rest, maxLength, k);
    GapsUnfold(rest, maxLength, k);
    CutDecomposes(rest, k);
  }

  lemma PiecesUnfold(rest: string, maxLength: int, k: int)
    requires 1 <= maxLength < |rest| && k == SplitPoint(rest, maxLength)
    ensures Pieces(rest, maxLength) == [rest[..k]] + Pieces(TrimStart(rest[k..]), maxLength)
  {
  }

  lemma GapsUnfold(rest: string, maxLength: int, k: int)
    requires 1 <= maxLength < |rest| && k == SplitPoint(rest, maxLength)
    ensures Gaps(rest, maxLength) == [LeadingWhitespace(rest[k..])] + Gaps(TrimStart(rest[k..]), maxLength)
  {
  }

  lemma CutDecomposes(rest: string, k: int)
    requires 0 <= k <= |rest|
    ensures rest == rest[..k] + LeadingWhitespace(rest[k..]) + TrimStart(rest[k..])
    ensures AllWhitespace(LeadingWhitespace(rest[k..]))
    ensures TrimStart(rest[k..]) == [] || !IsWhitespace(TrimStart(rest[k..])[0])
  {
    TrimStartSpec(rest[k..]);
    assert rest == rest[..k] + rest[k..];
  }

  /** Every chunk is non-empty and fits; the first chunk is a prefix of the remainder. */
  lemma {:induction false} PiecesBounds(rest: string, maxLength: int)
    requires 1 <= maxLength
    ensures ChunksFit(Pieces(rest, maxLength), maxLength)
    ensures |rest| > 0 <==> Pieces(rest, maxLength) != []
    ensures Pieces(rest, maxLength) != [] ==> StartsWith(rest, Pieces(rest, maxLength)[0])
    decreases |rest|
  {
    if |rest| > maxLength {
      var k := SplitPoint(rest, maxLength);
      var next := TrimStart(rest[k..]);
      PiecesStep(rest, maxLength);
      PiecesBounds(next, maxLength);
      ConsFits(rest[..k], Pieces(next, maxLength), maxLength);
    }
  }

  /**
   * The remainder is the chunks interleaved with whitespace-only gaps, and every
   * chunk after the first starts with a character that is not whitespace.
   */
  lemma {:induction false} PiecesLossless(rest: string, maxLength: int)
    requires 1 <= maxLength
    ensures |Gaps(rest, maxLength)| == |Pieces(rest, maxLength)|
    ensures rest == Interleave(Pieces(rest, maxLength), Gaps(rest, maxLength))
    ensures GapsAreWhitespace(Gaps(rest, maxLength))
    ensures LaterChunksStartNonWhitespace(Pieces(rest, maxLength))
    decreases |rest|
  {
    if |rest| == 0 {
    } else if |rest| <= maxLength {
      assert Interleave([rest], [""]) == rest + "" + Interleave([], []);
    } else {
      var k := SplitPoint(rest, maxLength);
      var next := TrimStart(rest[k..]);
      var gap := LeadingWhitespace(rest[k..]);
      PiecesStep(rest, maxLength);
      PiecesLossless(next, maxLength);
      PiecesBounds(next, maxLength);
      InterleaveCons(rest[..k], gap, Pieces(next, maxLength), Gaps(next, maxLength));
      ConsGaps(gap, Gaps(next, maxLength));
      ConsStartsNonWhitespace(rest[..k], Pieces(next, maxLength));
    }
  }

  /**
   * Every chunk fits in `maxLength`, and no chunk is empty unless the text was:
   * empty text gives the single chunk "".
   */
  lemma SplitBounds(text: string, maxLength: int)
    requires 1 <= maxLength
    ensures |Split(text, maxLength)| >= 1
    ensures text != "" ==> ChunksFit(Split(text, maxLength), maxLength)
    ensures text == "" ==> Split(text, maxLength) == [""]
  {
    if |text| > maxLength {
      PiecesBounds(text, maxLength);
    }
  }

  /**
   * Nothing but whitespace is lost: the text is the chunks interleaved with
   * whitespace-only gaps (the gap after the last chunk is a trailing whitespace
   * run that was dropped), and every chunk after the first starts with a
   * character that is not whitespace, so each gap is the whole whitespace run
   * that starts at its cut.
   */
  lemma SplitLossless(text: string, maxLength: int)
    requires 1 <= maxLength
    ensures |SplitGaps(text, maxLength)| == |Split(text, maxLength)|
    ensures text == Interleave(Split(text, maxLength), SplitGaps(text, maxLength))
    ensures GapsAreWhitespace(SplitGaps(text, maxLength))
    ensures LaterChunksStartNonWhitespace(Split(text, maxLength))
  {
    if |text| <= maxLength {
      assert Interleave([text], [""]) == text + "" + Interleave([], []);
    } else {
      PiecesLossless(text, maxLength);
    }
  }

  /** A long text with a paragraph break in the upper half is cut at that break. */
  lemma SplitAtParagraphExample(s: string)
    requires s == "AAAA\n\nBBBB"
    ensures Split(s, 6) == ["AAAA", "BBBB"]
  {
    ParagraphBreakExampleCut(s);
    PiecesStep(s, 6);
    var after := s[4..];
    assert after[..2] == "\n\n" && after[2] == 'B';
    TrimStartStopsAt(after, 2);
    assert s[..4] == "AAAA" && after[2..] == "BBBB";
  }

  lemma ParagraphBreakExampleCut(s: string)
    requires s == "AAAA\n\nBBBB"
    ensures SplitPoint(s, 6) == 4
  {
    assert !OccursAt(s, "\n\n", 6) by { assert s[6..8] == "BB"; }
    assert !OccursAt(s, "\n\n", 5) by { assert s[5..7] == "\nB"; }
    assert OccursAt(s, "\n\n", 4) by { assert s[4..6] == "\n\n"; }
    assert LastIndexOf(s, "\n\n", 6) == 4;
  }

  lemma AppendThenConcat(done: seq<string>, cut: string, later: seq<string>)
    ensures (done + [cut]) + later == done + ([cut] + later)
  {
  }

  /** `splitMessage(text, maxLength)`, the loop that cuts a reply into chunks. */
  method SplitMessage(text: string, maxLength: int) returns (chunks: seq<string>)
    requires 1 <= maxLength
    ensures chunks == Split(text, maxLength)
  {
    if |text| <= maxLength {
      return [text];
    }

    chunks := [];
    var remaining := text;
    while |remaining| > 0
      invariant chunks + Pieces(remaining, maxLength) == Pieces(text, maxLength)
      decreases |remaining|
    {
      if |remaining| <= maxLength {
        chunks := chunks + [remaining];
        break;
      }
      var splitAt := LastIndexOf(remaining, "\n\n", maxLength);
      if 2 * splitAt < maxLength {
        splitAt := LastIndexOf(remaining, "\n", maxLength);
      }
      if 2 * splitAt < maxLength {
        splitAt := LastIndexOf(remaining, " ", maxLength);
      }
      if splitAt < 1 {
        splitAt := maxLength;
      }
      PiecesUnfold(remaining, maxLength, splitAt);
      ghost var done := chunks;
      var cut := remaining[..splitAt];
      chunks := chunks + [cut];
      remaining := TrimStart(remaining[splitAt..]);
      ghost var later := Pieces(remaining, maxLength);
      AppendThenConcat(done, cut, later);
    }
  }

  // ---------------------------------------------------------------------------
  // sendWhatsAppMessage

  /** One request to the platform's send endpoint: the sending number, the bearer token, the recipient and the text body. */
  datatype SendRequest = SendRequest(phoneNumberId: string, token: string, to: string, body: string)

  /**
   * How one send ends: a success status; a failure status, whose body is read
   * and logged; or an exception, from `fetch` itself or from reading the body of
   * a failure response, which leaves the function at once.
   */
  datatype SendOutcome = Delivered | Rejected | Thrown

  /** The indices of the requests in `requests` that `respond` answers with a failure status, in order. */
  function FailedIndices(requests: seq<SendRequest>, respond: (nat, SendRequest) -> SendOutcome): seq<nat>
  {
    if requests == [] then []
    else
      var last := |requests| - 1;
      FailedIndices(requests[..last], respond) + (if respond(last, requests[last]) == Rejected then [last] else [])
  }

  /** A request's failure is logged exactly when the platform rejects it, and in the order sent. */
  lemma {:induction false} FailedIndicesExact(requests: seq<SendRequest>, respond: (nat, SendRequest) -> SendOutcome)
    ensures forall i :: i in FailedIndices(requests, respond) <==> 0 <= i < |requests| && respond(i, requests[i]) == Rejected
    ensures forall a, b :: 0 <= a < b < |FailedIndices(requests, respond)| ==>
      FailedIndices(requests, respond)[a] < FailedIndices(requests, respond)[b]
  {
    if requests != [] {
      var last := |requests| - 1;
      var before := requests[..last];
      FailedIndicesExact(before, respond);
      assert forall i :: 0 <= i < last ==> before[i] == requests[i];
      var earlier := FailedIndices(before, respond);
      forall a | 0 <= a < |earlier| ensures earlier[a] < last {
        assert earlier[a] in earlier;
      }
    }
  }

  /**
   * `sendWhatsAppMessage(to, text)`. `respond(i, request)` is how the i-th
   * request ends. Returns the requests issued, in order, the indices of those
   * whose failure was logged, and whether an exception left the function. A
   * failure status does not stop the requests after it; an exception does.
   */
  method SendWhatsAppMessage(token: Option<string>, phoneNumberId: Option<string>, to: string, text: string,
                             respond: (nat, SendRequest) -> SendOutcome)
    returns (requests: seq<SendRequest>, failed: seq<nat>, threw: bool)
    ensures !(Truthy(token) && Truthy(phoneNumberId)) ==> requests == [] && !threw
    ensures Truthy(token) && Truthy(phoneNumberId) ==>
      var chunks := Split(text, MAX_MESSAGE_LENGTH - CHUNK_MARGIN);
      && |requests| <= |chunks|
      && (forall i :: 0 <= i < |requests| ==> requests[i] == SendRequest(phoneNumberId.value, token.value, to, chunks[i]))
      && (!threw ==> |requests| == |chunks|)
    ensures forall i :: 0 <= i < |requests| - 1 ==> respond(i, requests[i]) != Thrown
    ensures threw <==> requests != [] && respond(|requests| - 1, requests[|requests| - 1]) == Thrown
    ensures failed == FailedIndices(requests, respond)
  {
    requests, failed, threw := [], [], false;
    if !Truthy(token) || !Truthy(phoneNumberId) {
      return;
    }
    var chunks := SplitMessage(text, MAX_MESSAGE_LENGTH - CHUNK_MARGIN);
    var n := 0;
    while n < |chunks| && !threw
      invariant n <= |chunks| && |requests| == n
      invariant forall i :: 0 <= i < n ==> requests[i] == SendRequest(phoneNumberId.value, token.value, to, chunks[i])
      invariant forall i :: 0 <= i < n - 1 ==> respond(i, requests[i]) != Thrown
      invariant threw <==> n > 0 && respond(n - 1, requests[n - 1]) == Thrown
      invariant failed == FailedIndices(requests, respond)
    {
      var request := SendRequest(phoneNumberId.value, token.value, to, chunks[n]);
      requests := requests + [request];
      assert requests[..n] == requests[..|requests| - 1];
      var outcome := respond(n, request);
      if outcome == Rejected {
        failed := failed + [n];
      } else if outcome == Thrown {
        threw := true;
      }
      n := n + 1;
    }
  }

  // ---------------------------------------------------------------------------
  // validateSignature

  type byte = b: int | 0 <= b < 256

  const HEX_DIGITS: string := "0123456789abcdef"

  /** Lower-case hexadecimal, two digits per byte, as `digest("hex")` writes it. */
  function HexEncode(bytes: seq<byte>): (hex: string)
    ensures |hex| == 2 * |bytes|
    ensures forall i :: 0 <= i < |hex| ==> hex[i] in HEX_DIGITS
  {
    if bytes == [] then ""
    else [HEX_DIGITS[bytes[0] / 16], HEX_DIGITS[bytes[0] % 16]] + HexEncode(bytes[1..])
  }

  lemma HexDigitInjective(a: int, b: int)
    requires 0 <= a < 16 && 0 <= b < 16 && HEX_DIGITS[a] == HEX_DIGITS[b]
    ensures a == b
  {
  }

  /** Distinct digests have distinct hex encodings. */
  lemma {:induction false} HexEncodeInjective(a: seq<byte>, b: seq<byte>)
    requires HexEncode(a) == HexEncode(b)
    ensures a == b
  {
    if a != [] {
      assert b != [];
      var ha, hb := HexEncode(a), HexEncode(b);
      assert ha[0] == hb[0] && ha[1] == hb[1];
      HexDigitInjective(a[0] / 16, b[0] / 16);
      HexDigitInjective(a[0] % 16, b[0] % 16);
      assert a[0] == b[0];
      assert HexEncode(a[1..]) == ha[2..] == hb[2..] == HexEncode(b[1..]);
      HexEncodeInjective(a[1..], b[1..]);
      assert a == [a[0]] + a[1..] && b == [b[0]] + b[1..];
    }
  }

  const SIGNATURE_PREFIX: string := "sha256="

  /**
   * `validateSignature(payload, signatureHeader)` with the app secret taken as a
   * parameter and `hmacSha256(key, message)` the raw HMAC-SHA256 digest.
   */
  function ValidateSignature(appSecret: Option<string>, hmacSha256: (string, string) -> seq<byte>,
                             payload: string, signatureHeader: Option<string>): (valid: bool)
    ensures !Truthy(appSecret) ==> valid
    ensures Truthy(appSecret) && (signatureHeader.None? || !StartsWith(signatureHeader.value, SIGNATURE_PREFIX)) ==> !valid
    ensures Truthy(appSecret) ==>
      (valid <==> signatureHeader == Some(SIGNATURE_PREFIX + HexEncode(hmacSha256(appSecret.value, payload))))
  {
    if !Truthy(appSecret) then true
    else if signatureHeader.None? || !StartsWith(signatureHeader.value, SIGNATURE_PREFIX) then false
    else SIGNATURE_PREFIX + HexEncode(hmacSha256(appSecret.value, payload)) == signatureHeader.value
  }

  /**
   * With a secret configured, a header accepted for two payloads proves that the
   * two payloads have the same HMAC: the header pins down the whole digest.
   */
  lemma AcceptedHeaderDeterminesDigest(appSecret: Option<string>, hmacSha256: (string, string) -> seq<byte>,
                                       payload1: string, payload2: string, signatureHeader: Option<string>)
    requires Truthy(appSecret)
    requires ValidateSignature(appSecret, hmacSha256, payload1, signatureHeader)
    requires ValidateSignature(appSecret, hmacSha256, payload2, signatureHeader)
    ensures hmacSha256(appSecret.value, payload1) == hmacSha256(appSecret.value, payload2)
  {
    var d1, d2 := hmacSha256(appSecret.value, payload1), hmacSha256(appSecret.value, payload2);
    assert SIGNATURE_PREFIX + HexEncode(d1) == SIGNATURE_PREFIX + HexEncode(d2);
    assert HexEncode(d1) == (SIGNATURE_PREFIX + HexEncode(d1))[|SIGNATURE_PREFIX|..];
    assert HexEncode(d2) == (SIGNATURE_PREFIX + HexEncode(d2))[|SIGNATURE_PREFIX|..];
    HexEncodeInjective(d1, d2);
  }
}
