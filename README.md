# unpack: a verified model of the Content-Encoding chain

`unpack` is Go HTTP middleware that decodes compressed request bodies. This project models its
core and proves properties of the model:

- how `Content-Encoding` header values become an ordered list of tokens;
- the decision to leave a request untouched or to decode it;
- the loop that opens one decode stage per token, from the last token to the first;
- `closeAll` and `multiReadCloser.Close`;
- the rewrite of the request once the pipeline is built;
- `DecompressionError` (`Error`, `Unwrap`) and `errorWrappingReadCloser` (`Read`, `Close`).

Modules, one per file:

- `Wrappers` (`wrappers.dfy`): `Option`. A Go nil is `None`.
- `Sequences` (`sequences.dfy`): small generic facts about sequences that the proofs use.
- `GoStrings` (`go_strings.dfy`): `strings.TrimSpace` (with `unicode.IsSpace`),
  `strings.ToLower`, and `strings.Split`/`strings.SplitSeq` on one separator. Each has lemmas
  describing what it does. `Join` undoes `Split`, and `Split` undoes `Join` for parts without the
  separator. Two strings that differ only in ASCII case trim and lower alike.
- `Errors` (`errors.dfy`), from `errors.go`:
  - errors are a datatype with an explicit unwrap chain;
  - `errors.Is(err, io.EOF)` and `errors.As(err, &decErr)` are predicates over that chain;
  - `Error` and `Unwrap` of `DecompressionError` are functions;
  - `TagReadError` is the pure heart of `Read`;
  - `ErrorWrappingReadCloser` is a class over an inner reader whose replies are fixed in advance.
    It models `Read` and `Close` of one tagger in isolation. Inside the pipeline the same tagger
    is the `Stream.Tagging` value of `Unpack`: `CloseOutcome` gives its `Close`, and
    `TagReadError`/`TagThrough` give its `Read` errors. No lemma ties the class to the value.
- `ContentEncodings` (`encodings.dfy`):
  - `parseContentEncodings` is a method with nested loops, proved equal to the function `Tokens`;
  - `allSupportedEncodings` and `hasDecodableEncodings` are loops with early exits, proved
    against quantified predicates;
  - the pass-through test.
- `Unpack` (`unpack.dfy`):
  - readers of the pipeline are the `Stream` datatype: the raw body, a decompressor over a
    source, or an error tagger over an inner reader;
  - opening a decompressor is an oracle `opens(decoder, source)`;
  - `Close` on a non-tagging reader is an oracle `closeOf(reader)`;
  - `StageOrder` and `Chain` say which stages the loop opens and what `closers` becomes;
  - `CloseAll`, `BuildPipeline` (the stage loop) and `Middleware` are methods proved against
    them. `Close` reports the sequence of readers it closed, in call order.

`DecompressionError` and `errorWrappingReadCloser` appear twice in the source, at
unpack.go:97-146 and in errors.go, with the same logic. They are modelled once, from errors.go.

The package documentation (doc.go:3-4) speaks of options that enforce strict handling of unknown
encodings or cap the decoded body size. The code has no options, and the model follows the code:
- there is no limit on decoded bytes;
- an unsupported token never causes a rejection (the request is passed through).

Two further facts about the code that the model keeps:
- `deflate` always opens `zlib.NewReader` (unpack.go:52-53);
- `closeAll` keeps the first error it meets, which is the error of the last closer that fails (unpack.go:165).

## Model

| member | source | states |
|---|---|---|
| GoStrings.TrimSpaceShape | unpack.go:178 | A trimmed part starts and ends with a non-space. It is empty exactly when every character of the part is white space. |
| GoStrings.TrimLeftShape | unpack.go:178 | Trimming the front removes a prefix made only of white space, and leaves a result that starts with a non-space. |
| GoStrings.TrimRightShape | unpack.go:178 | Trimming the back removes a suffix made only of white space, and leaves a result that ends with a non-space. |
| GoStrings.LowerChar | unpack.go:178 | Lowering maps 'A'-'Z' to 'a'-'z', U+0130 to 'i' and U+212A to 'k', and returns every other character unchanged. It never yields an ASCII capital and keeps white space as white space. |
| GoStrings.ToLowerShape | unpack.go:178 | Lowering keeps the length, lowers each character in place, and yields a string that lowering leaves unchanged. |
| GoStrings.SplitJoin | unpack.go:177 | No part of a split holds the separator. Joining the parts with the separator restores the value. |
| GoStrings.JoinSplit | unpack.go:177 | Splitting parts joined by the separator gives back the parts, when none of them holds the separator. |
| GoStrings.TrimSpaceIgnoresCase | unpack.go:178 | Trimming two strings that differ only in ASCII case gives two results that differ only in ASCII case. |
| GoStrings.ToLowerIgnoresCase | unpack.go:178 | Lowering two strings that differ only in ASCII case gives the same string. |
| GoStrings.SplitAround | unpack.go:176-177 | Splitting `a + sep + b` splits `a` and then `b`. |
| ContentEncodings.NormalizeShape | unpack.go:178-181 | A part normalizes to the empty string exactly when it is blank. Otherwise it normalizes to a token: non-empty, trimmed and lowercase. |
| ContentEncodings.NormalizeIgnoresCase | unpack.go:178 | Tokens are case-insensitive: two parts that differ only in ASCII case give the same token. |
| ContentEncodings.MixedCaseGzip | unpack.go:178 | The part " GZip " gives the token gzip. |
| ContentEncodings.NormalizeFixesTokens | unpack.go:178 | Normalizing is idempotent: a token normalizes to itself. |
| ContentEncodings.SelectShape | unpack.go:178-183 | There is one token per non-blank part, and every token is well formed. |
| ContentEncodings.SelectMembers | unpack.go:178-183 | Every non-blank part yields its token, and every token comes from some part. |
| ContentEncodings.SelectAppend | unpack.go:177-184 | Parts are processed left to right: the tokens of `a + b` are those of `a`, then those of `b`. |
| ContentEncodings.PartsAppend | unpack.go:176-177 | The parts of more header values come after the parts of the earlier ones. |
| ContentEncodings.TokensShape | unpack.go:177-183 | Every token is non-empty, trimmed and lowercase. The number of tokens equals the number of non-blank parts. A part yields a token exactly when it is not blank. |
| ContentEncodings.TokensAppend | unpack.go:176-187 | Header values are processed in occurrence order. |
| ContentEncodings.TokensOfTwoValues | unpack.go:176-187 | Two header values give the same tokens as one value joining them with a comma. |
| ContentEncodings.SingleToken | unpack.go:177-183 | A value without a comma gives its normalized form, or nothing when the value is blank. |
| ContentEncodings.TwoTokenValues | unpack.go:176-187 | Header values `a` and `b` give `[a, b]`. |
| ContentEncodings.CommaSeparatedTokens | unpack.go:176-187 | The single value `a, b` gives `[a, b]`, as in `gzip, deflate`. |
| ContentEncodings.ParseContentEncodings | unpack.go:173-188 | The nested loops return exactly `Tokens(headerValues)`. |
| ContentEncodings.AllSupportedEncodings | unpack.go:190-201 | The result is true exactly when every token is gzip, deflate, zstd or identity. The empty list gives true. |
| ContentEncodings.HasDecodableEncodings | unpack.go:203-212 | The result is true exactly when some token is gzip, deflate or zstd. |
| ContentEncodings.PassesThrough | unpack.go:33-36 | A request passes through exactly when it has no token, or some token is unsupported, or every token is identity. |
| Errors.Message | unpack.go:214-216 | The message is "Content-Encoding: ", then the token, then " set but unable to decompress body". |
| Errors.GzipMessage | unpack.go:214-216 | The message for gzip is "Content-Encoding: gzip set but unable to decompress body". |
| Errors.MessageInjective | unpack.go:214-216 | Different tokens never give the same message. |
| Errors.DecompressionText | errors.go:15-25 | A nil receiver gives "Content-Encoding decode error". With no cause the text is the message for the encoding. With a cause it is that message, ": ", and the cause's text. |
| Errors.NilTextIsDistinct | errors.go:16-18 | The nil-receiver text never equals the text of a real error. |
| Errors.DecompressionUnwrap | errors.go:27-33 | Unwrap gives `Err`, or nil for a nil receiver. |
| Errors.Unwrap | errors.go:27-33 | The next error of a chain is strictly smaller, so every chain is finite. |
| Errors.TagReadError | errors.go:44-54 | A nil error, an error wrapping EOF, or an error already carrying a DecompressionError is returned unchanged. Any other error becomes a DecompressionError for this stage whose Unwrap is the original error. |
| Errors.TagReadErrorIdempotent | errors.go:46-49 | A later stage never tags an error a second time. |
| Errors.TagThroughInnermost | errors.go:46-49 | However many stages an error crosses, it carries the tag of the first stage it met. |
| Errors.ErrorWrappingReadCloser.Read | errors.go:43-55 | The inner reader's byte count is returned unchanged. The inner error is returned after `TagReadError` for this stage. |
| Errors.ErrorWrappingReadCloser.Close | errors.go:60-62 | Close is handed to the inner reader, whose result is returned as it is. |
| Unpack.DecoderFor | unpack.go:49-61 | gzip selects the gzip reader, deflate the zlib reader, and zstd the zstd reader. A token has a decompressor exactly when it is decodable. |
| Unpack.Layer | unpack.go:49-75 | An opened stage is an error tagger for its token around the decompressor over the previous reader. |
| Unpack.OpenStage | unpack.go:47-75 | The stage opens exactly when its decompressor's constructor succeeds. An opened stage is `Layer(token, rc)`. |
| Unpack.StageOrderShape | unpack.go:41-45 | The stages are the non-identity tokens, last token first. There is one per non-identity token, and none is identity. |
| Unpack.StageOrderAppend | unpack.go:41 | Tokens later in the list get their stages first. |
| Unpack.StageStep | unpack.go:41-45 | Going from token `i + 1` back to token `i`, identity adds no stage, and any other token is the next stage in order. |
| Unpack.Chain | unpack.go:38-39 | `closers` has one entry more than the stage order, and starts with the raw body. |
| Unpack.ChainStep | unpack.go:71-75 | Each closer after the raw body is the stage of its token over the closer before it. |
| Unpack.ChainEntries | unpack.go:71-75 | Each closer after the raw body is the error tagger of its stage's token. |
| Unpack.ClosersOfTokens | unpack.go:38-76 | A fully built `closers` is the raw body, then one tagger per non-identity token with the last token first. Its length is 1 + the number of non-identity tokens. |
| Unpack.CloseOutcome | errors.go:60-62 | Closing an error tagger returns what closing its inner reader returns. |
| Unpack.CloseAll | unpack.go:162-171 | `Close` is called on every closer exactly once, last first. The result is nil exactly when every close succeeds. Otherwise it is the error of the failing closer with the highest index, the first one met. |
| Unpack.MultiReadCloser.Close | unpack.go:158-160 | Close is `closeAll` over the closers, with the same guarantees. |
| Unpack.HeaderValues | unpack.go:32 | A present key gives its values. A missing key gives none. |
| Unpack.Rewrite | unpack.go:78-85 | The new body reads from the outermost stage and closes every closer. `Content-Encoding` and `Content-Length` are removed, and `ContentLength` becomes -1. Every other header is kept unchanged. |
| Unpack.RewrittenPassesThrough | unpack.go:82-85 | A rewritten request has no Content-Encoding token, so it would pass through. |
| Unpack.FirstFailure | unpack.go:63-68 | When stage `n` is the first that fails to open, the loop stops there and not every stage opens. |
| Unpack.BuildPipeline | unpack.go:38-76 | When every stage opens, `closers` is the chain of the stage order and `rc` is its outermost reader. When stage `j` is the first to fail, the raw body and the stages before `j` are closed, outermost first, and token `j` is reported. |
| Unpack.Middleware | unpack.go:32-85 | A pass-through request goes on unchanged, and nothing is closed. A fully opened pipeline forwards the rewritten request. A first failure at stage `j` closes the closers gathered so far and answers 415 with the message for token `j`. |
| Unpack.StagesOfThreeTokens | unpack.go:41-76 | For `gzip, identity, deflate`, stages are opened for deflate and then gzip. The body reads gzip over zlib over the raw body. |
| Unpack.RejectedGzipExample | unpack.go:33-68 | With the only token gzip failing over the raw body, the request does not pass through, its stage order is gzip alone, and stage 0 is the first failure. |
| Unpack.RejectGzipRequest | unpack_test.go:26 | A request whose only token is gzip, with the gzip reader failing over the raw body, is answered 415 with "Content-Encoding: gzip set but unable to decompress body". Only the raw body is closed. |

## Left out

- HTTP plumbing is outside the model:
  - `http.Handler`, `ResponseWriter` and `next.ServeHTTP`;
  - the text/plain body and trailing newline that `http.Error` writes;
  - the deferred `wrappedBody.Close()` after the next handler returns (unpack.go:87-91).
  `Middleware` returns `Forwarded` or `Rejected`, and `closed` lists only the closes made before the answer.
- The decompressors (`gzip.NewReader`, `zlib.NewReader`, `zstd.NewReader`, `IOReadCloser`) are foreign code. They are modelled as the oracle `opens`. The header bytes a constructor consumes are not modelled.
- `Close` results of the raw body and of the decompressors come from the oracle `closeOf`.
- `multiReadCloser.Read` (unpack.go:153-156) only delegates to the outermost reader. The bytes of a read are not modelled. `TagThrough` models how an error travels outward through the taggers instead; it assumes a decompressor hands its source's error on unchanged.
- `Read`'s buffer and the bytes read are not modelled. Only the byte count and the error are.
- `ScriptedReadCloser` stands in for the inner `io.ReadCloser`. Its replies are fixed in advance, because a real reader's behaviour is foreign code.
- Header keys are assumed to be in canonical form already. `textproto.CanonicalMIMEHeaderKey` is not modelled.
- Strings are sequences of Unicode code points. How `TrimSpace` and `ToLower` treat invalid UTF-8 is not modelled.
- GoStrings.LowerChar: only the mappings onto ASCII are modelled ('A'-'Z', U+0130 to 'i', U+212A to 'k'). Other upper-case letters are kept, whereas Go lowers them. This never changes whether a token is gzip, deflate, zstd or identity. It only changes the text of unsupported tokens.
- The text of an error that is not a `DecompressionError` (its `%v` form) is the text stored in the value.
- A switch `default` for an unknown token is unreachable once `allSupportedEncodings` holds. The model keeps it as the code writes it: no decompressor, and the tagger goes straight over `rc`.
- The options the package documentation speaks of (doc.go:3-4), strict handling of unknown encodings and a cap on the decoded body size, are not in the code. They are not modelled.
- Raw-deflate input is not detected: `deflate` always opens `zlib.NewReader` (unpack.go:52-53), and so does the model.
- `closeAll` does not combine close errors. It keeps the first one it meets (unpack.go:165), and so does the model.
