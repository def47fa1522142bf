/**
 * Content-Encoding tokens: parsing the header values into one ordered token list, and the two
 * predicates that decide whether the middleware builds a decode pipeline at all.
 */
module ContentEncodings {
  import opened Sequences
  import opened GoStrings

  const Gzip: string := "gzip"
  const Deflate: string := "deflate"
  const Zstd: string := "zstd"
  const Identity: string := "identity"

  /** A parsed token: non-empty, no white space at either end, and lowercase. */
  predicate IsToken(t: string) {
    t != [] && !IsSpace(t[0]) && !IsSpace(t[|t| - 1]) && IsLowered(t)
  }

  /** A part that trimming empties contributes no token. */
  predicate IsBlank(part: string) {
    TrimSpace(part) == []
  }

  /** One comma-separated part, trimmed and lowercased. */
  function Normalize(part: string): string {
    ToLower(TrimSpace(part))
  }

  /** A part normalizes to nothing exactly when it is blank, and otherwise to a token. */
  lemma NormalizeShape(part: string)
    ensures Normalize(part) == [] <==> IsBlank(part)
    ensures Normalize(part) != [] ==> IsToken(Normalize(part))
  {
    var trimmed := TrimSpace(part);
    TrimSpaceShape(part);
    ToLowerShape(trimmed);
    var t := Normalize(part);
    assert t != [] ==> t[0] == LowerChar(trimmed[0]) && t[|t| - 1] == LowerChar(trimmed[|t| - 1]);
  }

  /**
   * Tokens are case-insensitive: two parts that differ only in the ASCII case of their letters
   * normalize to the same token.
   */
  lemma NormalizeIgnoresCase(p: string, q: string)
    requires SameIgnoringCase(p, q)
    ensures Normalize(p) == Normalize(q)
  {
    TrimSpaceIgnoresCase(p, q);
    ToLowerIgnoresCase(TrimSpace(p), TrimSpace(q));
  }

  /** A mixed-case part with white space around it normalizes to a lowercase token. */
  lemma MixedCaseGzip()
    ensures Normalize(" GZip ") == Gzip
  {
    assert TrimLeft(" GZip ") == TrimLeft("GZip ") == "GZip ";
    assert "GZip "[..4] == "GZip";
    assert TrimRight("GZip ") == TrimRight("GZip") == "GZip";
    assert ToLower("GZip") == "gzip";
  }

  /** A normalized part as a token list: nothing if it is empty. */
  function Keep(t: string): seq<string> {
    if t == [] then [] else [t]
  }

  /** The tokens of a list of parts: each part normalized, empty ones dropped, order kept. */
  function Select(parts: seq<string>): seq<string> {
    if parts == [] then []
    else Select(parts[..|parts| - 1]) + Keep(Normalize(parts[|parts| - 1]))
  }

  /** What one more part adds. */
  lemma SelectSnoc(parts: seq<string>, p: string)
    ensures Select(parts + [p]) == Select(parts) + Keep(Normalize(p))
  {
    assert (parts + [p])[..|parts|] == parts;
  }

  lemma {:induction false} SelectAppend(a: seq<string>, b: seq<string>)
    ensures Select(a + b) == Select(a) + Select(b)
    decreases |b|
  {
    if b == [] {
      TakeAll(a);
    } else {
      var init, last := b[..|b| - 1], b[|b| - 1];
      SplitLast(a, b);
      SelectAppend(a, init);
      SelectSnoc(a + init, last);
      SelectSnoc(init, last);
    }
  }

  /** How many parts are not blank. */
  function CountNonBlank(parts: seq<string>): nat {
    if parts == [] then 0
    else CountNonBlank(parts[..|parts| - 1]) + (if IsBlank(parts[|parts| - 1]) then 0 else 1)
  }

  /** One token per non-blank part, and each of them well formed. */
  lemma {:induction false} SelectShape(parts: seq<string>)
    ensures |Select(parts)| == CountNonBlank(parts)
    ensures forall i :: 0 <= i < |Select(parts)| ==> IsToken(Select(parts)[i])
    decreases |parts|
  {
    if parts != [] {
      SelectShape(parts[..|parts| - 1]);
      NormalizeShape(parts[|parts| - 1]);
    }
  }

  /** Every non-blank part gives its token, and every token comes from a part. */
  lemma {:induction false} SelectMembers(parts: seq<string>)
    ensures forall p :: p in parts && !IsBlank(p) ==> Normalize(p) in Select(parts)
    ensures forall t :: t in Select(parts) ==> exists p :: p in parts && Normalize(p) == t
    decreases |parts|
  {
    if parts != [] {
      var init := parts[..|parts| - 1];
      assert parts == init + [parts[|parts| - 1]];
      SelectMembers(init);
      NormalizeShape(parts[|parts| - 1]);
    }
  }

  /** All comma-separated parts of all header values: values in order, each split left to right. */
  function Parts(values: seq<string>): seq<string> {
    if values == [] then [] else Parts(values[..|values| - 1]) + Split(values[|values| - 1], ',')
  }

  lemma PartsSnoc(values: seq<string>, v: string)
    ensures Parts(values + [v]) == Parts(values) + Split(v, ',')
  {
    assert (values + [v])[..|values|] == values;
  }

  lemma {:induction false} PartsAppend(a: seq<string>, b: seq<string>)
    ensures Parts(a + b) == Parts(a) + Parts(b)
    decreases |b|
  {
    if b == [] {
      TakeAll(a);
    } else {
      var init, last := b[..|b| - 1], b[|b| - 1];
      SplitLast(a, b);
      PartsAppend(a, init);
      PartsSnoc(a + init, last);
      PartsSnoc(init, last);
      AppendAssoc(Parts(a), Parts(init), Split(last, ','));
    }
  }

  /** The token list of parseContentEncodings. */
  function Tokens(values: seq<string>): seq<string> {
    Select(Parts(values))
  }

  /**
   * Every token is non-empty, trimmed and lowercase; there is one token per non-blank part and
   * no other; every non-blank part gives its token, and every token comes from a part.
   */
  lemma TokensShape(values: seq<string>)
    ensures forall i :: 0 <= i < |Tokens(values)| ==> IsToken(Tokens(values)[i])
    ensures |Tokens(values)| == CountNonBlank(Parts(values))
    ensures forall p :: p in Parts(values) && !IsBlank(p) ==> Normalize(p) in Tokens(values)
    ensures forall t :: t in Tokens(values) ==> exists p :: p in Parts(values) && Normalize(p) == t
  {
    SelectShape(Parts(values));
    SelectMembers(Parts(values));
  }

  /** Header values are processed in occurrence order. */
  lemma TokensAppend(a: seq<string>, b: seq<string>)
    ensures Tokens(a + b) == Tokens(a) + Tokens(b)
  {
    PartsAppend(a, b);
    SelectAppend(Parts(a), Parts(b));
  }

  /** The parts of one value. */
  lemma PartsSingle(v: string)
    ensures Parts([v]) == Split(v, ',')
  {
    var empty: seq<string> := [];
    PartsSnoc(empty, v);
    assert empty + [v] == [v];
  }

  /** The parts of two values. */
  lemma PartsPair(a: string, b: string)
    ensures Parts([a, b]) == Split(a, ',') + Split(b, ',')
  {
    PartsSnoc([a], b);
    assert [a] + [b] == [a, b];
    PartsSingle(a);
  }

  /** Two header occurrences give the same tokens as one value joining them with a comma. */
  lemma TokensOfTwoValues(a: string, b: string)
    ensures Tokens([a, b]) == Tokens([a + "," + b])
  {
    PartsPair(a, b);
    PartsSingle(a + "," + b);
    SplitAround(a, b, ',');
  }

  /** A comma-free value gives its normalized self, or nothing when it is blank. */
  lemma SingleToken(v: string)
    requires ',' !in v
    ensures Tokens([v]) == Keep(Normalize(v))
  {
    SplitJoin(v, ',');
    assert Split(v, ',') == [v];
    var empty: seq<string> := [];
    PartsSnoc(empty, v);
    assert empty + [v] == [v];
    SelectSnoc(empty, v);
  }

  /** Normalizing a token gives it back: normalization is idempotent. */
  lemma NormalizeFixesTokens(t: string)
    requires IsToken(t)
    ensures Normalize(t) == t
  {
    assert TrimLeft(t) == t;
    assert TrimRight(t) == t;
    ToLowerShape(t);
  }

  /** A single token value parses to itself. */
  lemma TokenValue(t: string)
    requires IsToken(t) && ',' !in t
    ensures Tokens([t]) == [t]
  {
    SingleToken(t);
    NormalizeFixesTokens(t);
  }

  /** White space before a token is dropped. */
  lemma SpacedTokenValue(t: string)
    requires IsToken(t) && ',' !in t
    ensures Tokens([" " + t]) == [t]
  {
    var v := " " + t;
    assert ',' !in v;
    SingleToken(v);
    assert TrimLeft(v) == TrimLeft(t) by {
      assert v[1..] == t;
    }
    NormalizeFixesTokens(t);
  }

  /** The tokens of two values, one after the other. */
  lemma TokensPair(a: string, b: string)
    ensures Tokens([a, b]) == Tokens([a]) + Tokens([b])
  {
    TokensAppend([a], [b]);
    assert [a] + [b] == [a, b];
  }

  /** Two tokens as two header occurrences are both kept, in order. */
  lemma TwoTokenValues(a: string, b: string)
    requires IsToken(a) && ',' !in a && IsToken(b) && ',' !in b
    ensures Tokens([a, b]) == [a, b]
  {
    TokensPair(a, b);
    TokenValue(a);
    TokenValue(b);
  }

  /** Two tokens as the one value `a, b` (as in `Content-Encoding: gzip, deflate`). */
  lemma CommaSeparatedTokens(a: string, b: string)
    requires IsToken(a) && ',' !in a && IsToken(b) && ',' !in b
    ensures Tokens([a + ", " + b]) == [a, b]
  {
    var spaced := " " + b;
    assert ", " == "," + " ";
    AppendAssoc(a, ",", " ");
    AppendAssoc(a + ",", " ", b);
    TokensOfTwoValues(a, spaced);
    TokensPair(a, spaced);
    TokenValue(a);
    SpacedTokenValue(b);
  }

  /**
   * parseContentEncodings: every comma-separated part of every value, trimmed and lowercased,
   * appended in order unless it is empty.
   */
  method ParseContentEncodings(headerValues: seq<string>) returns (encodings: seq<string>)
    ensures encodings == Tokens(headerValues)
  {
    encodings := [];
    for i := 0 to |headerValues|
      invariant encodings == Tokens(headerValues[..i])
    {
      var value := headerValues[i];
      var parts := Split(value, ',');
      ghost var before := Parts(headerValues[..i]);
      TakeAll(before);
      for j := 0 to |parts|
        invariant encodings == Select(before + parts[..j])
      {
        var encoding := ToLower(TrimSpace(parts[j]));
        TakeSnoc(before, parts, j);
        SelectSnoc(before + parts[..j], parts[j]);
        if encoding == "" {
          continue;
        }
        encodings := encodings + [encoding];
      }
      TakeAll(parts);
      TakeSnoc([], headerValues, i);
      PartsSnoc(headerValues[..i], value);
    }
    TakeAll(headerValues);
  }

  /** The tokens the code knows: the three decodable ones and `identity`. */
  predicate IsSupported(e: string) {
    e == Gzip || e == Deflate || e == Zstd || e == Identity
  }

  /** The tokens that need a decode stage. */
  predicate IsDecodable(e: string) {
    e == Gzip || e == Deflate || e == Zstd
  }

  predicate AllSupported(encodings: seq<string>) {
    forall i :: 0 <= i < |encodings| ==> IsSupported(encodings[i])
  }

  predicate HasDecodable(encodings: seq<string>) {
    exists i :: 0 <= i < |encodings| && IsDecodable(encodings[i])
  }

  /** allSupportedEncodings: true unless some token is unknown; true for no tokens. */
  method AllSupportedEncodings(encodings: seq<string>) returns (b: bool)
    ensures b <==> forall i :: 0 <= i < |encodings| ==> IsSupported(encodings[i])
  {
    for i := 0 to |encodings|
      invariant forall k :: 0 <= k < i ==> IsSupported(encodings[k])
    {
      var encoding := encodings[i];
      if encoding == Gzip || encoding == Deflate || encoding == Zstd || encoding == Identity {
        continue;
      }
      return false;
    }
    return true;
  }

  /** hasDecodableEncodings: true when some token is gzip, deflate or zstd. */
  method HasDecodableEncodings(encodings: seq<string>) returns (b: bool)
    ensures b <==> exists i :: 0 <= i < |encodings| && IsDecodable(encodings[i])
  {
    for i := 0 to |encodings|
      invariant forall k :: 0 <= k < i ==> !IsDecodable(encodings[k])
    {
      var encoding := encodings[i];
      if encoding == Gzip || encoding == Deflate || encoding == Zstd {
        return true;
      }
    }
    return false;
  }

  /**
   * The test the middleware applies before touching the request: leave it alone when there is
   * no token, an unsupported token, or no decodable token.
   */
  function PassesThrough(encodings: seq<string>): (pass: bool)
    ensures pass <==> || encodings == []
                      || (exists i :: 0 <= i < |encodings| && !IsSupported(encodings[i]))
                      || (forall i :: 0 <= i < |encodings| ==> encodings[i] == Identity)
  {
    |encodings| == 0 || !AllSupported(encodings) || !HasDecodable(encodings)
  }
}
