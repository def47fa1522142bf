/**
 * The middleware itself: the decision to pass a request through, the loop that builds one decode
 * stage per token from the last token to the first, `closeAll`, and the request rewrite that
 * installs the decoded body.
 */
module Unpack {
  import opened Wrappers
  import opened Sequences
  import opened Errors
  import opened ContentEncodings

  /** The three decompressors: gzip, zlib (for `deflate`) and zstd. */
  datatype Decoder = GzipReader | ZlibReader | ZstdReader

  /**
   * A reader of the pipeline: the raw request body, a decompressor reading from its `source`, or
   * an errorWrappingReadCloser around `inner` that tags errors with `encoding`.
   */
  datatype Stream =
    | RawBody
    | Decoding(decoder: Decoder, source: Stream)
    | Tagging(encoding: string, inner: Stream)

  /** The decompressor the switch of the stage loop picks for a token, if any. */
  function DecoderFor(e: string): (d: Option<Decoder>)
    ensures d.Some? <==> IsDecodable(e)
    ensures e == Gzip ==> d == Some(GzipReader)
    ensures e == Deflate ==> d == Some(ZlibReader)
    ensures e == Zstd ==> d == Some(ZstdReader)
  {
    if e == Gzip then Some(GzipReader)
    else if e == Deflate then Some(ZlibReader)
    else if e == Zstd then Some(ZstdReader)
    else None
  }

  /**
   * Whether the stage for `e` opens over `src`. `opens(d, src)` stands for the constructor of
   * decompressor `d` succeeding on the bytes `src` delivers; a token without a decompressor has
   * nothing to open.
   */
  predicate StageOpens(e: string, src: Stream, opens: (Decoder, Stream) -> bool) {
    match DecoderFor(e)
    case None => true
    case Some(d) => opens(d, src)
  }

  /** The stage for `e` over `src`, once opened: the decompressor wrapped in the error tagger. */
  function Layer(e: string, src: Stream): (s: Stream)
    ensures s.Tagging? && s.encoding == e
    ensures IsDecodable(e) ==> s.inner == Decoding(DecoderFor(e).value, src)
  {
    match DecoderFor(e)
    case None => Tagging(e, src)
    case Some(d) => Tagging(e, Decoding(d, src))
  }

  /** The tokens that get a stage, in the order the loop opens them: last token first, no `identity`. */
  function StageOrder(encodings: seq<string>): seq<string> {
    if encodings == [] then []
    else StageOrder(encodings[1..]) + (if encodings[0] == Identity then [] else [encodings[0]])
  }

  /** The tokens other than `identity`, in their own order. */
  function NonIdentity(encodings: seq<string>): seq<string> {
    if encodings == [] then []
    else (if encodings[0] == Identity then [] else [encodings[0]]) + NonIdentity(encodings[1..])
  }

  /** `s` back to front. */
  function Reversed<T>(s: seq<T>): (r: seq<T>)
    ensures |r| == |s|
    ensures forall k :: 0 <= k < |s| ==> r[k] == s[|s| - 1 - k]
  {
    if s == [] then [] else Reversed(s[1..]) + [s[0]]
  }

  lemma ReversedCons<T>(x: T, s: seq<T>)
    ensures Reversed([x] + s) == Reversed(s) + [x]
  {
    assert ([x] + s)[1..] == s;
  }

  /**
   * The stages are the non-identity tokens exactly, in reverse order; there is one per
   * non-identity token, and none of them is `identity`.
   */
  lemma {:induction false} StageOrderShape(encodings: seq<string>)
    ensures StageOrder(encodings) == Reversed(NonIdentity(encodings))
    ensures |StageOrder(encodings)| == |encodings| - multiset(encodings)[Identity]
    ensures Identity !in StageOrder(encodings)
  {
    if encodings != [] {
      var e, rest := encodings[0], encodings[1..];
      StageOrderShape(rest);
      assert encodings == [e] + rest;
      var head := if e == Identity then [] else [e];
      if e != Identity {
        ReversedCons(e, NonIdentity(rest));
      } else {
        assert NonIdentity(encodings) == NonIdentity(rest);
      }
      assert multiset(encodings) == multiset([e]) + multiset(rest);
    }
  }

  /** Processing more tokens first (they come later in the list) puts their stages first. */
  lemma {:induction false} StageOrderAppend(a: seq<string>, b: seq<string>)
    ensures StageOrder(a + b) == StageOrder(b) + StageOrder(a)
  {
    if a == [] {
      assert a + b == b;
    } else {
      assert (a + b)[1..] == a[1..] + b;
      StageOrderAppend(a[1..], b);
    }
  }

  /**
   * The `closers` list once the stages of `order` are opened: the raw body, then each stage over
   * the previous entry.
   */
  function Chain(order: seq<string>): (c: seq<Stream>)
    ensures |c| == |order| + 1 && c[0] == RawBody
  {
    if order == [] then [RawBody]
    else
      var c := Chain(order[..|order| - 1]);
      c + [Layer(order[|order| - 1], c[|c| - 1])]
  }

  /** Each entry of the chain after the raw body is the stage of its token over the entry before. */
  lemma {:induction false} ChainStep(order: seq<string>, k: nat)
    requires k < |order|
    ensures Chain(order)[k + 1] == Layer(order[k], Chain(order)[k])
    decreases |order|
  {
    var init := order[..|order| - 1];
    if k < |init| {
      ChainStep(init, k);
      assert order[k] == init[k];
    }
  }

  /** Every entry after the raw body is the error tagger of its stage's token. */
  lemma ChainEntries(order: seq<string>)
    ensures forall k :: 1 <= k < |Chain(order)| ==>
              Chain(order)[k].Tagging? && Chain(order)[k].encoding == order[k - 1]
  {
    forall k | 1 <= k < |Chain(order)|
      ensures Chain(order)[k].Tagging? && Chain(order)[k].encoding == order[k - 1]
    {
      ChainStep(order, k - 1);
    }
  }

  /**
   * The closers of a fully built pipeline: the raw body first, then one error tagger per
   * non-identity token, last token first; one more entry than there are non-identity tokens.
   */
  lemma ClosersOfTokens(encodings: seq<string>)
    ensures var c := Chain(StageOrder(encodings));
            |c| == 1 + |encodings| - multiset(encodings)[Identity] && c[0] == RawBody &&
            forall k :: 1 <= k < |c| ==>
              c[k].Tagging? && c[k].encoding == StageOrder(encodings)[k - 1] && c[k].encoding != Identity
  {
    var order := StageOrder(encodings);
    StageOrderShape(encodings);
    ChainEntries(order);
    forall k | 0 <= k < |order|
      ensures order[k] != Identity
    {
      assert order[k] in order;
    }
  }

  /** The stages of `order` before index `n` all opened. */
  predicate OpensUpTo(order: seq<string>, opens: (Decoder, Stream) -> bool, n: nat)
    requires n <= |order|
  {
    forall k :: 0 <= k < n ==> StageOpens(order[k], Chain(order)[k], opens)
  }

  /** Stage `j` is the first that fails to open. */
  predicate FailsFirstAt(order: seq<string>, opens: (Decoder, Stream) -> bool, j: int) {
    0 <= j < |order| && OpensUpTo(order, opens, j) && !StageOpens(order[j], Chain(order)[j], opens)
  }

  /** One more stage opened. */
  lemma OpensUpToStep(order: seq<string>, opens: (Decoder, Stream) -> bool, n: nat)
    requires n < |order| && OpensUpTo(order, opens, n)
    requires StageOpens(order[n], Chain(order)[n], opens)
    ensures OpensUpTo(order, opens, n + 1)
  {
  }

  /** The result of `Close` on a reader: the error tagger hands it to its inner reader. */
  function CloseOutcome(s: Stream, closeOf: Stream -> Option<Error>): (err: Option<Error>)
    ensures !s.Tagging? ==> err == closeOf(s)
    ensures s.Tagging? ==> err == CloseOutcome(s.inner, closeOf)
  {
    match s
    case Tagging(_, inner) => CloseOutcome(inner, closeOf)
    case _ => closeOf(s)
  }

  /**
   * closeAll: `Close` is called once on every closer, from the last to the first; the result is
   * nil when all of them succeed, and otherwise the error of the first failure met, which is the
   * failing closer with the highest index.
   */
  method CloseAll(closers: seq<Stream>, closeOf: Stream -> Option<Error>)
    returns (err: Option<Error>, calls: seq<Stream>)
    ensures calls == Reversed(closers)
    ensures err.None? <==> forall k :: 0 <= k < |closers| ==> CloseOutcome(closers[k], closeOf).None?
    ensures err.Some? ==>
              exists k :: 0 <= k < |closers| && err == CloseOutcome(closers[k], closeOf) &&
                forall m :: k < m < |closers| ==> CloseOutcome(closers[m], closeOf).None?
  {
    err, calls := None, [];
    for i := |closers| downto 0
      invariant calls == Reversed(closers[i..])
      invariant err.None? <==> forall k :: i <= k < |closers| ==> CloseOutcome(closers[k], closeOf).None?
      invariant err.Some? ==>
                  exists k :: i <= k < |closers| && err == CloseOutcome(closers[k], closeOf) &&
                    forall m :: k < m < |closers| ==> CloseOutcome(closers[m], closeOf).None?
    {
      var cerr := CloseOutcome(closers[i], closeOf);
      SplitFirst(closers[i..], []);
      assert closers[i..][1..] == closers[i + 1..];
      ReversedCons(closers[i], closers[i + 1..]);
      calls := calls + [closers[i]];
      if cerr.Some? && err.None? {
        err := cerr;
      }
    }
    TakeAll(closers);
  }

  /** multiReadCloser: the outermost reader and every closer of the pipeline. */
  datatype MultiReadCloser = MultiReadCloser(reader: Stream, closers: seq<Stream>) {
    /** Close: closeAll over the closers. */
    method Close(closeOf: Stream -> Option<Error>) returns (err: Option<Error>, calls: seq<Stream>)
      ensures calls == Reversed(closers)
      ensures err.None? <==> forall k :: 0 <= k < |closers| ==> CloseOutcome(closers[k], closeOf).None?
      ensures err.Some? ==>
                exists k :: 0 <= k < |closers| && err == CloseOutcome(closers[k], closeOf) &&
                  forall m :: k < m < |closers| ==> CloseOutcome(closers[m], closeOf).None?
    {
      err, calls := CloseAll(closers, closeOf);
    }
  }

  /** A request body: the one the client sent, or the decoded one the middleware installs. */
  datatype Body = Original | Unpacked(m: MultiReadCloser)

  /** The parts of an `*http.Request` the middleware reads or writes; header keys are canonical. */
  datatype Request = Request(header: map<string, seq<string>>, contentLength: int, body: Body)

  /** What the middleware does with a request: hand it to the next handler, or answer an error. */
  datatype Outcome = Forwarded(request: Request) | Rejected(status: int, message: string)

  const ContentEncodingKey: string := "Content-Encoding"
  const ContentLengthKey: string := "Content-Length"
  const StatusUnsupportedMediaType: int := 415

  /** Header.Values: every value of the key, or none when it is absent. */
  function HeaderValues(header: map<string, seq<string>>, key: string): (values: seq<string>)
    ensures key !in header ==> values == []
    ensures key in header ==> values == header[key]
  {
    if key in header then header[key] else []
  }

  /** The tokens of the request's Content-Encoding header. */
  function RequestEncodings(req: Request): seq<string> {
    Tokens(HeaderValues(req.header, ContentEncodingKey))
  }

  /**
   * The request handed on after building succeeded: the body reads from the outermost stage and
   * closes every stage, both length headers are gone, the length is unknown (-1), and every other
   * header is kept as it was.
   */
  function Rewrite(req: Request, chain: seq<Stream>): (r: Request)
    requires chain != []
    ensures r.body == Unpacked(MultiReadCloser(chain[|chain| - 1], chain))
    ensures r.contentLength == -1
    ensures ContentEncodingKey !in r.header && ContentLengthKey !in r.header
    ensures forall k :: k in r.header ==> k in req.header
    ensures forall k :: k in req.header && k != ContentEncodingKey && k != ContentLengthKey ==>
              k in r.header && r.header[k] == req.header[k]
  {
    Request(req.header - {ContentEncodingKey, ContentLengthKey}, -1, Unpacked(MultiReadCloser(chain[|chain| - 1], chain)))
  }

  /** A rewritten request carries no Content-Encoding, so the middleware would pass it through. */
  lemma RewrittenPassesThrough(req: Request, chain: seq<Stream>)
    requires chain != []
    ensures RequestEncodings(Rewrite(req, chain)) == []
    ensures PassesThrough(RequestEncodings(Rewrite(req, chain)))
  {
    var empty: seq<string> := [];
    assert Parts(empty) == [];
  }

  /** The stages of `encodings[i..]` come first in the stage order of all of `encodings`. */
  lemma StageOrderSplit(encodings: seq<string>, i: nat)
    requires i <= |encodings|
    ensures StageOrder(encodings) == StageOrder(encodings[i..]) + StageOrder(encodings[..i])
  {
    TakeDrop(encodings, i);
    StageOrderAppend(encodings[..i], encodings[i..]);
  }

  /**
   * One step of the stage loop, after `n` stages for the tokens after `i`: token `i` adds
   * nothing when it is `identity`, and is otherwise stage `n` of the order.
   */
  lemma StageStep(encodings: seq<string>, i: nat, n: nat)
    requires i < |encodings| && n == |StageOrder(encodings[i + 1..])|
    ensures encodings[i] == Identity ==> |StageOrder(encodings[i..])| == n
    ensures encodings[i] != Identity ==>
              |StageOrder(encodings[i..])| == n + 1 &&
              n < |StageOrder(encodings)| && StageOrder(encodings)[n] == encodings[i]
  {
    assert encodings[i..][1..] == encodings[i + 1..];
    StageOrderSplit(encodings, i);
    StageOrderSplit(encodings, i + 1);
  }

  /**
   * One pass of the stage loop for a token other than `identity`: the switch picks the
   * decompressor and opens it over `rc`; once open, the stage is wrapped in the error tagger. A
   * token without a decompressor gets the tagger straight over `rc`.
   */
  method OpenStage(encoding: string, opens: (Decoder, Stream) -> bool, rc: Stream)
    returns (isOpen: bool, stage: Stream)
    ensures isOpen == StageOpens(encoding, rc, opens)
    ensures isOpen ==> stage == Layer(encoding, rc)
  {
    stage := rc;
    if encoding == Gzip {
      if !opens(GzipReader, rc) { return false, stage; }
      stage := Decoding(GzipReader, rc);
    } else if encoding == Deflate {
      if !opens(ZlibReader, rc) { return false, stage; }
      stage := Decoding(ZlibReader, rc);
    } else if encoding == Zstd {
      if !opens(ZstdReader, rc) { return false, stage; }
      stage := Decoding(ZstdReader, rc);
    }
    return true, Tagging(encoding, stage);
  }

  /** What the stage loop ends with: every stage open, or the token whose stage failed. */
  datatype Build =
    | Built(rc: Stream, closers: seq<Stream>)
    | Failed(encoding: string, closed: seq<Stream>)

  /** The loop's exit when stage `n` is the first that fails: not every stage opens. */
  lemma FirstFailure(order: seq<string>, opens: (Decoder, Stream) -> bool, n: nat)
    requires n < |order| && OpensUpTo(order, opens, n) && !StageOpens(order[n], Chain(order)[n], opens)
    ensures FailsFirstAt(order, opens, n) && !OpensUpTo(order, opens, |order|)
  {
    assert !StageOpens(order[n], Chain(order)[n], opens);
  }

  /**
   * The stage loop of the middleware: from the last token to the first, `identity` skipped, each
   * stage opened over the reader so far and appended to `closers`, which starts with the raw
   * body. When all open, `closers` is the chain of the stage order and `rc` its outermost reader.
   * When stage `j` is the first that fails, what was gathered so far (the raw body and the stages
   * before `j`) is closed from the outermost in, and the failing token is reported.
   */
  method BuildPipeline(encodings: seq<string>, opens: (Decoder, Stream) -> bool, closeOf: Stream -> Option<Error>)
    returns (b: Build)
    ensures var order := StageOrder(encodings);
            OpensUpTo(order, opens, |order|) ==> b == Built(Chain(order)[|order|], Chain(order))
    ensures var order := StageOrder(encodings);
            !OpensUpTo(order, opens, |order|) ==>
              exists j :: FailsFirstAt(order, opens, j) && b == Failed(order[j], Reversed(Chain(order)[..j + 1]))
  {
    ghost var order := StageOrder(encodings);
    ghost var chain := Chain(order);
    ghost var n: nat := 0;
    var rc := RawBody;
    var closers := [RawBody];
    for i := |encodings| downto 0
      invariant n <= |order|
      invariant n == |StageOrder(encodings[i..])|
      invariant closers == chain[..n + 1] && rc == chain[n]
      invariant OpensUpTo(order, opens, n)
    {
      var encoding := encodings[i];
      StageStep(encodings, i, n);
      if encoding == Identity {
        continue;
      }

      var isOpen;
      isOpen, rc := OpenStage(encoding, opens, rc);
      if !isOpen {
        var _, calls := CloseAll(closers, closeOf);
        b := Failed(encoding, calls);
        FirstFailure(order, opens, n);
        assert FailsFirstAt(order, opens, n) && b == Failed(order[n], Reversed(chain[..n + 1]));
        return;
      }
      OpensUpToStep(order, opens, n);
      ChainStep(order, n);
      TakeSnoc([], chain, n + 1);
      closers := closers + [rc];
      n := n + 1;
    }
    TakeAll(encodings);
    assert n == |order| && OpensUpTo(order, opens, |order|);
    return Built(rc, closers);
  }

  /**
   * The middleware. With no token, an unsupported token or no decodable token the request goes on
   * untouched. Otherwise the stages are built; when all open, the rewritten request goes on, its
   * body reading through all of them; when stage `j` is the first that fails, the raw body and
   * the stages before `j` are closed from the outermost in, and the answer is 415 with the
   * message naming the failing token. `closed` lists the readers closed before the answer, in
   * call order.
   */
  method Middleware(req: Request, opens: (Decoder, Stream) -> bool, closeOf: Stream -> Option<Error>)
    returns (out: Outcome, closed: seq<Stream>)
    ensures PassesThrough(RequestEncodings(req)) ==> out == Forwarded(req) && closed == []
    ensures var order := StageOrder(RequestEncodings(req));
            !PassesThrough(RequestEncodings(req)) && OpensUpTo(order, opens, |order|) ==>
              out == Forwarded(Rewrite(req, Chain(order))) && closed == []
    ensures var order := StageOrder(RequestEncodings(req));
            !PassesThrough(RequestEncodings(req)) && !OpensUpTo(order, opens, |order|) ==>
              exists j :: FailsFirstAt(order, opens, j) &&
                out == Rejected(StatusUnsupportedMediaType, Message(order[j])) &&
                closed == Reversed(Chain(order)[..j + 1])
  {
    var encodings := ParseContentEncodings(HeaderValues(req.header, ContentEncodingKey));
    var allSupported := AllSupportedEncodings(encodings);
    var hasDecodable := HasDecodableEncodings(encodings);
    if |encodings| == 0 || !allSupported || !hasDecodable {
      return Forwarded(req), [];
    }
    var b := BuildPipeline(encodings, opens, closeOf);
    match b
    case Failed(encoding, calls) =>
      out, closed := Rejected(StatusUnsupportedMediaType, Message(encoding)), calls;
    case Built(rc, closers) =>
      out, closed := Forwarded(Rewrite(req, closers)), [];
  }

  /**
   * Tokens `gzip, identity, deflate` (gzip applied first): the stages are opened for `deflate`
   * and then `gzip`, and the body reads gzip over zlib over the raw body.
   */
  lemma StagesOfThreeTokens(first: string, last: string)
    requires first != Identity && last != Identity
    ensures StageOrder([first, Identity, last]) == [last, first]
    ensures Chain([last, first]) == [RawBody, Layer(last, RawBody), Layer(first, Layer(last, RawBody))]
  {
    var s := [first, Identity, last];
    assert s[1..] == [Identity, last] && s[1..][1..] == [last] && s[1..][1..][1..] == [];
    assert StageOrder([last]) == [last];
    assert StageOrder([Identity, last]) == [last];
    assert StageOrder(s) == [last] + [first];
    var order := [last, first];
    assert order[..1] == [last] && order[..1][..0] == [];
    assert Chain([last]) == [RawBody, Layer(last, RawBody)];
    assert Chain(order) == Chain([last]) + [Layer(first, Layer(last, RawBody))];
  }

  /**
   * The rejection the test table expects for a body that is not gzip: with the only token
   * `gzip` failing over the raw body, stage 0 fails first, so the answer names gzip.
   */
  lemma RejectedGzipExample(opens: (Decoder, Stream) -> bool)
    requires !opens(GzipReader, RawBody)
    ensures !PassesThrough([Gzip])
    ensures StageOrder([Gzip]) == [Gzip]
    ensures FailsFirstAt([Gzip], opens, 0) && !OpensUpTo([Gzip], opens, 1)
  {
    assert IsSupported([Gzip][0]) && IsDecodable([Gzip][0]);
    assert [Gzip][1..] == [];
    assert DecoderFor(Gzip) == Some(GzipReader);
  }

  /**
   * The rejection the test table expects for a body that is not gzip: a request whose only
   * token is `gzip`, with the gzip reader failing over the raw body, is answered 415 with the
   * message naming gzip, and only the raw body is closed.
   */
  method RejectGzipRequest(opens: (Decoder, Stream) -> bool, closeOf: Stream -> Option<Error>)
    returns (out: Outcome, closed: seq<Stream>)
    requires !opens(GzipReader, RawBody)
    ensures out == Rejected(415, "Content-Encoding: gzip set but unable to decompress body")
    ensures closed == [RawBody]
  {
    var req := Request(map[ContentEncodingKey := [Gzip]], 5, Original);
    assert HeaderValues(req.header, ContentEncodingKey) == [Gzip];
    TokenValue(Gzip);
    RejectedGzipExample(opens);
    GzipMessage();
    var order := [Gzip];
    assert Chain(order)[..1] == [RawBody];
    assert Reversed([RawBody]) == [RawBody];
    out, closed := Middleware(req, opens, closeOf);
    assert RequestEncodings(req) == order;
    var j :| FailsFirstAt(order, opens, j) && out == Rejected(StatusUnsupportedMediaType, Message(order[j]))
             && closed == Reversed(Chain(order)[..j + 1]);
    assert j == 0;
  }
}
