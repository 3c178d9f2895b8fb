/**
 * What `replaceToken` does to one documentation file (lib/index.ts:184-202):
 * in the body of every block anchored with the given name, the token must
 * occur exactly once and is replaced by the value; otherwise the callback
 * throws and the file keeps its contents.
 *
 * Tokens are literal strings. Occurrences are counted and replaced left to
 * right without overlapping, an empty token occurring at every position.
 */
module TokenReplacer {
  import opened Wrappers
  import opened Text
  import opened DocBlocks

  /** The error `replaceToken` throws: `token ${token} appeared ${count} times`. */
  datatype TokenError = TokenCount(token: string, count: nat)

  /** `Array.from(s.matchAll(token)).length` from position `i` on. */
  function CountFrom(s: string, token: string, i: nat): nat
    requires i <= |s|
    decreases |s| - i
  {
    if At(s, i, token) then
      1 + (if |token| > 0 then CountFrom(s, token, i + |token|) else if i == |s| then 0 else CountFrom(s, token, i + 1))
    else if i == |s| then 0
    else CountFrom(s, token, i + 1)
  }

  function Count(s: string, token: string): nat
  {
    CountFrom(s, token, 0)
  }

  /** `s.replaceAll(token, value)` from position `i` on, with `value` inserted as it is. */
  function ReplaceFrom(s: string, token: string, value: string, i: nat): string
    requires i <= |s|
    decreases |s| - i
  {
    if At(s, i, token) then
      value + (if |token| > 0 then ReplaceFrom(s, token, value, i + |token|)
               else if i == |s| then "" else [s[i]] + ReplaceFrom(s, token, value, i + 1))
    else if i == |s| then ""
    else [s[i]] + ReplaceFrom(s, token, value, i + 1)
  }

  function ReplaceLit(s: string, token: string, value: string): string
  {
    ReplaceFrom(s, token, value, 0)
  }

  /** Where nothing is counted, nothing occurs and nothing is replaced. */
  lemma {:induction false} CountZero(s: string, token: string, value: string, i: nat)
    requires i <= |s| && CountFrom(s, token, i) == 0
    ensures forall j :: i <= j ==> !At(s, j, token)
    ensures ReplaceFrom(s, token, value, i) == s[i..]
    decreases |s| - i
  {
    if i < |s| {
      CountZero(s, token, value, i + 1);
      assert s[i..] == [s[i]] + s[i + 1..];
    }
  }

  /** Where nothing occurs, nothing is counted. */
  lemma {:induction false} NoneCounted(s: string, token: string, i: nat)
    requires i <= |s| && forall j :: i <= j ==> !At(s, j, token)
    ensures CountFrom(s, token, i) == 0
    decreases |s| - i
  {
    if i < |s| {
      NoneCounted(s, token, i + 1);
    }
  }

  /** The token is counted zero times exactly when it does not occur. */
  lemma CountZeroIff(s: string, token: string)
    ensures Count(s, token) == 0 <==> !Contains(s, token)
  {
    if Count(s, token) == 0 {
      CountZero(s, token, "", 0);
    } else if !Contains(s, token) {
      NoneCounted(s, token, 0);
    }
  }

  /** An empty token is counted once per position, ends included. */
  lemma {:induction false} CountEmpty(s: string, i: nat)
    requires i <= |s|
    ensures CountFrom(s, "", i) == |s| - i + 1
    decreases |s| - i
  {
    assert At(s, i, "");
    if i < |s| {
      CountEmpty(s, i + 1);
    }
  }

  /** A token counted once from `i` on occurs first at some `k`, and is counted once from there. */
  lemma {:induction false} CountOnce(s: string, token: string, i: nat) returns (k: nat)
    requires i <= |s| && CountFrom(s, token, i) == 1
    ensures i <= k <= |s| && At(s, k, token) && CountFrom(s, token, k) == 1
    ensures forall j :: i <= j < k ==> !At(s, j, token)
    decreases |s| - i
  {
    if At(s, i, token) {
      k := i;
    } else {
      k := CountOnce(s, token, i + 1);
    }
  }

  /** The occurrence at `i` is the last one counted from `i`. */
  lemma OnceHere(s: string, token: string, value: string, i: nat)
    requires i <= |s| && At(s, i, token) && CountFrom(s, token, i) == 1
    ensures forall j :: i < j && i + |token| <= j ==> !At(s, j, token)
    ensures ReplaceFrom(s, token, value, i) == value + s[i + |token|..]
  {
    if |token| > 0 {
      CountZero(s, token, value, i + |token|);
    } else {
      if i < |s| {
        CountEmpty(s, i + 1);
      }
      assert i == |s|;
    }
  }

  /** Replacing copies the text up to the first occurrence unchanged. */
  lemma {:induction false} ReplaceBefore(s: string, token: string, value: string, i: nat, k: nat)
    requires i <= k <= |s| && forall j :: i <= j < k ==> !At(s, j, token)
    ensures ReplaceFrom(s, token, value, i) == s[i..k] + ReplaceFrom(s, token, value, k)
    decreases k - i
  {
    if i < k {
      assert !At(s, i, token);
      assert ReplaceFrom(s, token, value, i) == [s[i]] + ReplaceFrom(s, token, value, i + 1);
      ReplaceBefore(s, token, value, i + 1, k);
      assert s[i..k] == [s[i]] + s[i + 1..k];
    }
  }

  /**
   * The corrected replacement: when the token occurs once (counted as
   * `matchAll` counts), the result is the text before it, the value exactly
   * as given, and the text after it.
   */
  lemma ReplaceOnce(s: string, token: string, value: string) returns (k: nat)
    requires Count(s, token) == 1
    ensures At(s, k, token) && forall j :: 0 <= j < k ==> !At(s, j, token)
    ensures forall j :: k < j && k + |token| <= j ==> !At(s, j, token)
    ensures ReplaceLit(s, token, value) == s[..k] + value + s[k + |token|..]
  {
    k := CountOnce(s, token, 0);
    OnceHere(s, token, value, k);
    ReplaceBefore(s, token, value, 0, k);
  }

  // The as-written replacement.

  /**
   * `GetSubstitution` of ECMAScript (section 22.1.3.19.1 of ECMA-262) for a
   * string pattern, which has no capture groups: `$$` becomes `$`, `$&` the
   * matched text, `` $` `` the text before it and `$'` the text after it;
   * every other character, `$1` and `$<` included, is copied.
   */
  function Expand(r: string, matched: string, before: string, after: string): string
    decreases |r|
  {
    if |r| >= 2 && r[0] == '$' && r[1] == '$' then "$" + Expand(r[2..], matched, before, after)
    else if |r| >= 2 && r[0] == '$' && r[1] == '&' then matched + Expand(r[2..], matched, before, after)
    else if |r| >= 2 && r[0] == '$' && r[1] == '`' then before + Expand(r[2..], matched, before, after)
    else if |r| >= 2 && r[0] == '$' && r[1] == '\'' then after + Expand(r[2..], matched, before, after)
    else if r == [] then ""
    else [r[0]] + Expand(r[1..], matched, before, after)
  }

  /**
   * `content.replaceAll(token, stringValue)` (lib/index.ts:198) as written: a
   * replacement given as a string has its `$` patterns expanded at every
   * occurrence.
   */
  function ReplaceAllAsWritten(s: string, token: string, value: string, i: nat): string
    requires i <= |s|
    decreases |s| - i
  {
    if At(s, i, token) then
      Expand(value, token, s[..i], s[i + |token|..])
      + (if |token| > 0 then ReplaceAllAsWritten(s, token, value, i + |token|)
         else if i == |s| then "" else [s[i]] + ReplaceAllAsWritten(s, token, value, i + 1))
    else if i == |s| then ""
    else [s[i]] + ReplaceAllAsWritten(s, token, value, i + 1)
  }

  /** A replacement string without `$` is inserted as it is. */
  lemma {:induction false} ExpandPlain(r: string, matched: string, before: string, after: string)
    requires '$' !in r
    ensures Expand(r, matched, before, after) == r
    decreases |r|
  {
    if r != [] {
      assert r[0] != '$' && r == [r[0]] + r[1..];
      ExpandPlain(r[1..], matched, before, after);
    }
  }

  /**
   * The replacement as written and the corrected one agree on every value
   * without `$`: the two differ only in how `$` patterns are read.
   */
  lemma {:induction false} AsWrittenWithoutDollar(s: string, token: string, value: string, i: nat)
    requires i <= |s| && '$' !in value
    ensures ReplaceAllAsWritten(s, token, value, i) == ReplaceFrom(s, token, value, i)
    decreases |s| - i
  {
    if At(s, i, token) {
      ExpandPlain(value, token, s[..i], s[i + |token|..]);
      if |token| > 0 {
        AsWrittenWithoutDollar(s, token, value, i + |token|);
        assert ReplaceAllAsWritten(s, token, value, i) == value + ReplaceAllAsWritten(s, token, value, i + |token|);
        assert ReplaceFrom(s, token, value, i) == value + ReplaceFrom(s, token, value, i + |token|);
      } else if i < |s| {
        AsWrittenWithoutDollar(s, token, value, i + 1);
        assert ReplaceAllAsWritten(s, token, value, i) == value + [s[i]] + ReplaceAllAsWritten(s, token, value, i + 1);
        assert ReplaceFrom(s, token, value, i) == value + [s[i]] + ReplaceFrom(s, token, value, i + 1);
      }
    } else if i < |s| {
      AsWrittenWithoutDollar(s, token, value, i + 1);
    }
  }

  /**
   * The value is not inserted as it is: with the token `T` occurring once in
   * `x = T`, the string value `$$` comes out as `$`, and the value `$&` puts
   * the token itself back.
   */
  lemma DollarPatternsExpanded()
    ensures Count("x = T", "T") == 1
    ensures ReplaceAllAsWritten("x = T", "T", "$$", 0) == "x = $" != ReplaceLit("x = T", "T", "$$")
    ensures ReplaceAllAsWritten("x = T", "T", "$&", 0) == "x = T" != ReplaceLit("x = T", "T", "$&")
  {
    var s := "x = T";
    assert !At(s, 0, "T") && !At(s, 1, "T") && !At(s, 2, "T") && !At(s, 3, "T") && At(s, 4, "T");
    assert s[..4] == "x = " && s[5..] == "";
    assert Expand("$$", "T", "x = ", "") == "$";
    assert Expand("$&", "T", "x = ", "") == "T";
    assert CountFrom(s, "T", 5) == 0;
    assert ReplaceFrom(s, "T", "$$", 4) == "$$";
    assert ReplaceFrom(s, "T", "$&", 4) == "$&";
  }

  // One documentation file.

  /**
   * The callback of `replaceToken` on block `b`: the error when the token is
   * not counted exactly once in the body, otherwise
   * `[header, replacedContent, end].join('')`.
   */
  function TokenReplacement(t: string, b: Block, token: string, value: string): Result<string, TokenError>
    requires End(b) <= |t|
  {
    var count := Count(Body(t, b), token);
    if count != 1 then Failure(TokenCount(token, count))
    else Success(Join([Header(t, b), ReplaceLit(Body(t, b), token, value), Closing(t, b)], ""))
  }

  /** `replaceAll` from `p` on: the first block whose callback throws ends it. */
  function ReplaceTokenFrom(t: string, p: nat, bs: seq<Block>, token: string, value: string): Result<string, TokenError>
    requires Laid(t, p, bs)
    decreases |bs|
  {
    if bs == [] then Success(t[p..])
    else
      match TokenReplacement(t, bs[0], token, value)
      case Failure(e) => Failure(e)
      case Success(r) =>
        match ReplaceTokenFrom(t, End(bs[0]), bs[1..], token, value)
        case Failure(e) => Failure(e)
        case Success(rest) => Success(t[p..bs[0].start] + r + rest)
  }

  /** `file.contents.replaceAll(exampleRegex(exampleName), …)` of `replaceToken`, on one file's contents. */
  function ReplaceTokenText(t: string, name: string, token: string, value: string): Result<string, TokenError>
  {
    NamedBlocksFromLaid(t, name, 0);
    ReplaceTokenFrom(t, 0, NamedBlocks(t, name), token, value)
  }

  /** The token is counted exactly once in the body of every block. */
  predicate AllOnce(t: string, bs: seq<Block>, token: string)
    requires Inside(t, bs)
  {
    forall k :: 0 <= k < |bs| ==> Count(Body(t, bs[k]), token) == 1
  }

  /** The new bodies: the token in each body replaced by the value. */
  function TokenBodies(t: string, bs: seq<Block>, token: string, value: string): seq<string>
    requires Inside(t, bs)
  {
    seq(|bs|, k requires 0 <= k < |bs| => ReplaceLit(Body(t, bs[k]), token, value))
  }

  lemma TokenReplacementParts(t: string, p: nat, b: Block, token: string, value: string)
    requires p <= b.start && End(b) <= |t| && Count(Body(t, b), token) == 1
    ensures t[p..b.start] + TokenReplacement(t, b, token, value).value
         == t[p..BodyAt(b)] + ReplaceLit(Body(t, b), token, value) + t[EndFenceAt(b)..End(b)]
  {
    var h, r, c := Header(t, b), ReplaceLit(Body(t, b), token, value), Closing(t, b);
    assert [h, r, c][1..] == [r, c];
    assert [r, c][1..] == [c];
    assert Join([c], "") == c;
    assert Join([r, c], "") == r + c;
    assert Join([h, r, c], "") == h + "" + Join([r, c], "");
    assert t[p..b.start] + h == t[p..BodyAt(b)];
  }

  lemma {:induction false} TokenFromSuccess(t: string, p: nat, bs: seq<Block>, token: string, value: string)
    requires Laid(t, p, bs)
    ensures Inside(t, bs)
    ensures ReplaceTokenFrom(t, p, bs, token, value).Success? <==> AllOnce(t, bs, token)
    ensures AllOnce(t, bs, token) ==>
      ReplaceTokenFrom(t, p, bs, token, value).value == Splice(t, p, bs, TokenBodies(t, bs, token, value))
    decreases |bs|
  {
    LaidInside(t, p, bs);
    if bs != [] {
      var b := bs[0];
      TokenFromSuccess(t, End(b), bs[1..], token, value);
      assert TokenBodies(t, bs, token, value)[1..] == TokenBodies(t, bs[1..], token, value);
      assert AllOnce(t, bs, token) <==> Count(Body(t, b), token) == 1 && AllOnce(t, bs[1..], token) by {
        if Count(Body(t, b), token) == 1 && AllOnce(t, bs[1..], token) {
          forall k | 1 <= k < |bs| ensures Count(Body(t, bs[k]), token) == 1 {
            assert bs[k] == bs[1..][k - 1];
          }
        }
      }
      if Count(Body(t, b), token) == 1 {
        TokenReplacementParts(t, p, b, token, value);
      }
    }
  }

  /** The error is the one of the first block whose count is not one. */
  lemma {:induction false} TokenFromFailure(t: string, p: nat, bs: seq<Block>, token: string, value: string) returns (k: nat)
    requires Laid(t, p, bs) && ReplaceTokenFrom(t, p, bs, token, value).Failure?
    ensures Inside(t, bs) && k < |bs|
    ensures forall j :: 0 <= j < k ==> Count(Body(t, bs[j]), token) == 1
    ensures ReplaceTokenFrom(t, p, bs, token, value).error == TokenCount(token, Count(Body(t, bs[k]), token))
    ensures Count(Body(t, bs[k]), token) != 1
    decreases |bs|
  {
    LaidInside(t, p, bs);
    var b := bs[0];
    if Count(Body(t, b), token) != 1 {
      k := 0;
    } else {
      var k' := TokenFromFailure(t, End(b), bs[1..], token, value);
      k := k' + 1;
      forall j | 1 <= j < k ensures Count(Body(t, bs[j]), token) == 1 {
        assert bs[j] == bs[1..][j - 1];
      }
    }
  }

  /**
   * An empty token always throws: it is counted once more than the body has
   * characters, and a body is never empty, so the first block already counts
   * it at least twice.
   */
  lemma EmptyTokenThrows(t: string, name: string, value: string)
    requires NamedBlocks(t, name) != []
    ensures var b := NamedBlocks(t, name)[0];
      && End(b) <= |t|
      && ReplaceTokenText(t, name, "", value).Failure?
      && ReplaceTokenText(t, name, "", value).error == TokenCount("", |Body(t, b)| + 1)
  {
    var bs := NamedBlocks(t, name);
    NamedLayout(t, name, 0);
    var body := Body(t, bs[0]);
    CountEmpty(body, 0);
    assert Count(body, "") == |body| + 1 >= 2;
    ReplaceTokenFailure(t, name, "", value);
    var r := ReplaceTokenText(t, name, "", value);
    assert r.Failure?;
    var k :| 0 <= k < |bs| && Count(Body(t, bs[k]), "") != 1
      && r.error == TokenCount("", Count(Body(t, bs[k]), ""))
      && forall j :: 0 <= j < k ==> Count(Body(t, bs[j]), "") == 1;
    assert k == 0;
  }

  /**
   * `replaceToken` on one file throws exactly when, in some block anchored
   * with the name, the token is not counted exactly once; it throws the
   * count of the first such block.
   */
  lemma ReplaceTokenFailure(t: string, name: string, token: string, value: string)
    ensures var bs := NamedBlocks(t, name);
      && Inside(t, bs)
      && (ReplaceTokenText(t, name, token, value).Failure? <==> exists k :: 0 <= k < |bs| && Count(Body(t, bs[k]), token) != 1)
      && (ReplaceTokenText(t, name, token, value).Failure? ==>
            exists k :: 0 <= k < |bs| && Count(Body(t, bs[k]), token) != 1
              && ReplaceTokenText(t, name, token, value).error == TokenCount(token, Count(Body(t, bs[k]), token))
              && forall j :: 0 <= j < k ==> Count(Body(t, bs[j]), token) == 1)
  {
    var bs := NamedBlocks(t, name);
    NamedBlocksFromLaid(t, name, 0);
    TokenFromSuccess(t, 0, bs, token, value);
    if ReplaceTokenText(t, name, token, value).Failure? {
      var k := TokenFromFailure(t, 0, bs, token, value);
    }
  }

  /**
   * When `replaceToken` succeeds on one file, only the bodies of the blocks
   * anchored with the name change: the text between them, their headers
   * and their closing fences are kept, and in each body the one occurrence
   * of the token is replaced by the value, which is inserted as it is.
   */
  lemma ReplaceTokenSuccess(t: string, name: string, token: string, value: string)
    requires ReplaceTokenText(t, name, token, value).Success?
    ensures var bs := NamedBlocks(t, name);
      && Laid(t, 0, bs) && Inside(t, bs) && AllOnce(t, bs, token)
      && ReplaceTokenText(t, name, token, value).value == Splice(t, 0, bs, TokenBodies(t, bs, token, value))
      && t == Splice(t, 0, bs, Bodies(t, bs))
      && forall k :: 0 <= k < |bs| ==> Name(t, bs[k]) == name
  {
    var bs := NamedBlocks(t, name);
    NamedBlocksFromLaid(t, name, 0);
    TokenFromSuccess(t, 0, bs, token, value);
    SpliceOwnBodies(t, 0, bs);
    forall k | 0 <= k < |bs| ensures Name(t, bs[k]) == name {
      NamedLayout(t, name, k);
    }
  }

  /** `r` is `body` with one occurrence of the token replaced by the value. */
  ghost predicate InsertedIn(body: string, token: string, value: string, r: string)
  {
    exists j: nat :: At(body, j, token) && r == body[..j] + value + body[j + |token|..]
  }

  /** Each new body is its old body with one occurrence of the token replaced by the value. */
  ghost predicate Inserted(t: string, bs: seq<Block>, token: string, value: string, bodies: seq<string>)
    requires Inside(t, bs) && |bodies| == |bs|
  {
    forall k :: 0 <= k < |bs| ==> InsertedIn(Body(t, bs[k]), token, value, bodies[k])
  }

  /**
   * In a body where the token is counted once, the new body is the text
   * before its only occurrence, the value, and the text after it.
   */
  lemma TokenBodiesOnce(t: string, bs: seq<Block>, token: string, value: string)
    requires Inside(t, bs) && AllOnce(t, bs, token)
    ensures Inserted(t, bs, token, value, TokenBodies(t, bs, token, value))
  {
    var bodies := TokenBodies(t, bs, token, value);
    forall k | 0 <= k < |bs| ensures InsertedIn(Body(t, bs[k]), token, value, bodies[k]) {
      var s := Body(t, bs[k]);
      var j := ReplaceOnce(s, token, value);
      assert bodies[k] == s[..j] + value + s[j + |token|..];
    }
  }
}
