/**
 * Go error values as the middleware sees them, the `DecompressionError` type with its `Error`
 * and `Unwrap` methods, and the reader wrapper that tags read errors with the encoding of the
 * stage they came from.
 */
module Errors {
  import opened Wrappers
  import opened Sequences

  /**
   * A non-nil Go `error`. `Plain` has no cause; `Wrapped` is any foreign error whose `Unwrap`
   * gives `cause` (as `fmt.Errorf("...%w", cause)` builds); `Decompression` holds a
   * `*DecompressionError`, which may be a nil pointer.
   */
  datatype Error =
    | EOF
    | Plain(text: string)
    | Wrapped(text: string, cause: Error)
    | Decompression(d: DecompressionError)

  /** A `*DecompressionError`: nil, or a pointer to the record of a stage and its cause. */
  datatype DecompressionError =
    | NilDecompression
    | DecompressionError(encoding: string, err: Option<Error>)

  const MessagePrefix: string := "Content-Encoding: "
  const MessageSuffix: string := " set but unable to decompress body"
  const NilReceiverText: string := "Content-Encoding decode error"

  /** decompressionErrorMessage: the text that names the encoding that could not be decoded. */
  function Message(encoding: string): (m: string)
    ensures |m| == |MessagePrefix| + |encoding| + |MessageSuffix|
    ensures m[..|MessagePrefix|] == MessagePrefix
    ensures m[|m| - |MessageSuffix|..] == MessageSuffix
    ensures m[|MessagePrefix|..|m| - |MessageSuffix|] == encoding
  {
    MessagePrefix + encoding + MessageSuffix
  }

  /** The message for gzip, written out. */
  lemma GzipMessage()
    ensures Message("gzip") == "Content-Encoding: gzip set but unable to decompress body"
  {
    var a, b, c, d := "Content-Encoding: gzip", " set but ", "unable to ", "decompress body";
    assert MessagePrefix + "gzip" == a;
    assert b + c + d == MessageSuffix;
    assert a + b == "Content-Encoding: gzip set but ";
    assert a + b + c == "Content-Encoding: gzip set but unable to ";
    assert a + b + c + d == "Content-Encoding: gzip set but unable to decompress body";
    AppendAssoc(a, b + c, d);
    AppendAssoc(a, b, c);
  }

  /** Different encodings are never reported with the same message. */
  lemma MessageInjective(a: string, b: string)
    requires Message(a) == Message(b)
    ensures a == b
  {
    var m := Message(a);
    assert a == m[|MessagePrefix|..|m| - |MessageSuffix|];
  }

  /** error.Error() for each kind of error. */
  function ErrorText(e: Error): string
    decreases e, 1
  {
    match e
    case EOF => "EOF"
    case Plain(text) => text
    case Wrapped(text, _) => text
    case Decompression(d) => DecompressionText(d)
  }

  /** DecompressionError.Error. */
  function DecompressionText(d: DecompressionError): (t: string)
    decreases d, 0
    ensures d.NilDecompression? ==> t == NilReceiverText
    ensures d.DecompressionError? ==>
              |Message(d.encoding)| <= |t| && t[..|Message(d.encoding)|] == Message(d.encoding)
    ensures d.DecompressionError? && d.err.None? ==> t == Message(d.encoding)
    ensures d.DecompressionError? && d.err.Some? ==>
              t[|Message(d.encoding)|..] == ": " + ErrorText(d.err.value)
  {
    match d
    case NilDecompression => NilReceiverText
    case DecompressionError(encoding, err) =>
      match err
      case None => Message(encoding)
      case Some(inner) => Message(encoding) + ": " + ErrorText(inner)
  }

  /** The text of a nil receiver is never the text of a real decompression error. */
  lemma NilTextIsDistinct(encoding: string, err: Option<Error>)
    ensures DecompressionText(NilDecompression) != DecompressionText(DecompressionError(encoding, err))
  {
    var t := DecompressionText(DecompressionError(encoding, err));
    assert t[..|MessagePrefix|] == MessagePrefix;
    assert t[16] == ':';
    assert NilReceiverText[16] == ' ';
  }

  /** DecompressionError.Unwrap. */
  function DecompressionUnwrap(d: DecompressionError): (cause: Option<Error>)
    ensures d.NilDecompression? ==> cause.None?
    ensures d.DecompressionError? ==> cause == d.err
  {
    match d
    case NilDecompression => None
    case DecompressionError(_, err) => err
  }

  /** errors.Unwrap: the next error of the chain, if there is one. */
  function Unwrap(e: Error): (cause: Option<Error>)
    ensures cause.Some? ==> cause.value < e
  {
    match e
    case EOF => None
    case Plain(_) => None
    case Wrapped(_, cause) => Some(cause)
    case Decompression(d) => DecompressionUnwrap(d)
  }

  /** errors.Is(e, io.EOF): `EOF` is somewhere in the unwrap chain of `e`. */
  predicate IsEOF(e: Error)
    decreases e
  {
    e == EOF || (Unwrap(e).Some? && IsEOF(Unwrap(e).value))
  }

  /** errors.As(e, &decErr): a `*DecompressionError`, nil or not, is in the unwrap chain. */
  predicate HasDecompression(e: Error)
    decreases e
  {
    e.Decompression? || (Unwrap(e).Some? && HasDecompression(Unwrap(e).value))
  }

  /**
   * What errorWrappingReadCloser.Read makes of the error its inner reader returned: nil, EOF
   * (or an error wrapping it) and errors that already carry a DecompressionError pass unchanged;
   * any other error is tagged with this stage's encoding.
   */
  function TagReadError(encoding: string, err: Option<Error>): (r: Option<Error>)
    ensures err.None? ==> r.None?
    ensures err.Some? && (IsEOF(err.value) || HasDecompression(err.value)) ==> r == err
    ensures err.Some? && !IsEOF(err.value) && !HasDecompression(err.value) ==>
              r == Some(Decompression(DecompressionError(encoding, err)))
    ensures r.Some? ==> !IsEOF(r.value) ==> HasDecompression(r.value) || r == err
    ensures r.Some? && r != err ==> Unwrap(r.value) == err
  {
    match err
    case None => None
    case Some(e) =>
      if IsEOF(e) || HasDecompression(e) then err
      else Some(Decompression(DecompressionError(encoding, err)))
  }

  /** Tagging is idempotent across stages: a later stage never tags an error a second time. */
  lemma TagReadErrorIdempotent(outer: string, inner: string, err: Option<Error>)
    ensures TagReadError(outer, TagReadError(inner, err)) == TagReadError(inner, err)
  {
    var r := TagReadError(inner, err);
    if r.Some? && r != err {
      assert HasDecompression(r.value);
    }
  }

  /**
   * An error passed outwards through the wrappers of the given stages, innermost first, with
   * each decoder handing its source's error on unchanged.
   */
  function TagThrough(stages: seq<string>, err: Option<Error>): Option<Error>
    decreases |stages|
  {
    if stages == [] then err else TagThrough(stages[1..], TagReadError(stages[0], err))
  }

  /** However many stages an error crosses, it carries the tag of the first one it met. */
  lemma {:induction false} TagThroughInnermost(stages: seq<string>, err: Option<Error>)
    requires stages != []
    ensures TagThrough(stages, err) == TagReadError(stages[0], err)
  {
    var once := TagReadError(stages[0], err);
    if |stages| > 1 {
      TagThroughInnermost(stages[1..], once);
      TagReadErrorIdempotent(stages[1], stages[0], err);
    }
  }

  /** One reply of an `io.Reader`: the byte count and the error. */
  datatype ReadReply = ReadReply(n: nat, err: Option<Error>)

  /**
   * The inner `io.ReadCloser` of a wrapper, whose replies are given in advance: `Read` gives the
   * next reply, and `(0, EOF)` once they are used up; `Close` always answers `closeError`.
   */
  class ScriptedReadCloser {
    var replies: seq<ReadReply>
    var closeCalls: nat
    const closeError: Option<Error>

    constructor (replies: seq<ReadReply>, closeError: Option<Error>)
      ensures this.replies == replies && this.closeError == closeError && closeCalls == 0
    {
      this.replies := replies;
      this.closeError := closeError;
      closeCalls := 0;
    }

    method Read() returns (n: nat, err: Option<Error>)
      modifies this
      ensures old(replies) == [] ==> n == 0 && err == Some(EOF) && replies == []
      ensures old(replies) != [] ==>
                (n, err) == (old(replies)[0].n, old(replies)[0].err) && replies == old(replies)[1..]
      ensures closeCalls == old(closeCalls)
    {
      if replies == [] {
        n, err := 0, Some(EOF);
      } else {
        n, err := replies[0].n, replies[0].err;
        replies := replies[1..];
      }
    }

    method Close() returns (err: Option<Error>)
      modifies this
      ensures err == closeError
      ensures closeCalls == old(closeCalls) + 1 && replies == old(replies)
    {
      closeCalls := closeCalls + 1;
      err := closeError;
    }
  }

  /** errorWrappingReadCloser: a decode stage's reader, remembered with its encoding. */
  class ErrorWrappingReadCloser {
    const rc: ScriptedReadCloser
    const encoding: string

    constructor (rc: ScriptedReadCloser, encoding: string)
      ensures this.rc == rc && this.encoding == encoding
    {
      this.rc := rc;
      this.encoding := encoding;
    }

    /** Read: the inner byte count unchanged, the inner error tagged with this stage's encoding. */
    method Read() returns (n: nat, err: Option<Error>)
      modifies rc
      ensures var reply := if old(rc.replies) == [] then ReadReply(0, Some(EOF)) else old(rc.replies)[0];
              n == reply.n && err == TagReadError(encoding, reply.err)
      ensures rc.replies == if old(rc.replies) == [] then [] else old(rc.replies)[1..]
      ensures rc.closeCalls == old(rc.closeCalls)
    {
      var innerErr;
      n, innerErr := rc.Read();
      if innerErr.Some? && !IsEOF(innerErr.value) {
        if HasDecompression(innerErr.value) {
          return n, innerErr;
        }
        return n, Some(Decompression(DecompressionError(encoding, innerErr)));
      }
      return n, innerErr;
    }

    /** Close: handed to the inner closer, whose answer is returned as it is. */
    method Close() returns (err: Option<Error>)
      modifies rc
      ensures err == rc.closeError
      ensures rc.closeCalls == old(rc.closeCalls) + 1 && rc.replies == old(rc.replies)
    {
      err := rc.Close();
    }
  }
}
