/**
 * Running `replaceExamples` (lib/index.ts:142-150) a second time with the
 * same collected examples changes nothing, as long as no collected code
 * holds a fence of three backticks.
 *
 * After the first rewrite every matched body is a newline, the joined codes
 * and a newline. A body that starts with a newline cuts the tag short and
 * stops every header that starts before it, so the second search meets the
 * same blocks, one by one, at their new places: a block it found earlier,
 * or preferred at the same place, would have been a block of the original
 * text before the one found there.
 */
module StableRewrite {
  import opened Wrappers
  import opened Text
  import opened ExampleMaps
  import opened DocBlocks

  // The characters of a header.

  /** The anchor, the name and `-->` stand on one line. */
  lemma AnchorOnOneLine(u: string, c: Block)
    requires IsBlockAt(u, c)
    ensures forall z :: c.start <= z < SpaceAt(c) ==> u[z] != '\n'
  {
    AtChars(u, c.start, AnchorOpen);
    SpanChars(u, NameAt(c), c.name, LineChar);
    AtChars(u, CloseAt(c), AnchorClose);
    forall z | c.start <= z < SpaceAt(c) ensures u[z] != '\n' {
      if z < NameAt(c) {
        assert u[z] in AnchorOpen;
      } else if CloseAt(c) <= z {
        assert u[z] in AnchorClose;
      }
    }
  }

  /** From the opening fence up to the body every character is a tag character: the backtick is one. */
  lemma FenceAndTagChars(u: string, f: Block)
    requires IsBlockAt(u, f)
    ensures forall z :: FenceAt(f) <= z < BodyAt(f) ==> IsTagChar(u[z])
  {
    AtChars(u, FenceAt(f), Fence);
    SpanChars(u, TagAt(f), f.tail.tag, TagChar);
  }

  /** Just before the opening fence stands white space or the `>` of `-->`: neither a backtick nor a tag character. */
  lemma BeforeFence(u: string, f: Block)
    requires IsBlockAt(u, f)
    ensures u[FenceAt(f) - 1] != '`' && !IsTagChar(u[FenceAt(f) - 1])
  {
    if f.tail.space > 0 {
      SpanChars(u, SpaceAt(f), f.tail.space, SpaceChar);
    } else {
      AtChars(u, CloseAt(f), AnchorClose);
    }
  }

  /**
   * When the body of `f` starts with a newline, the `-->` of a block
   * standing at or before the start of `f` ends before the opening fence of `f`.
   */
  lemma CloseBeforeFence(u: string, f: Block, c: Block)
    requires IsBlockAt(u, f) && BodyAt(f) < |u| && u[BodyAt(f)] == '\n'
    requires IsBlockAt(u, c) && c.start <= f.start
    ensures SpaceAt(c) <= FenceAt(f)
  {
    AnchorOnOneLine(u, c);
    assert SpaceAt(c) <= BodyAt(f);
    FenceAndTagChars(u, f);
    AtChars(u, CloseAt(c), AnchorClose);
    assert u[SpaceAt(c) - 1] == '>';
  }

  /**
   * When the body of `f` starts with a newline, a block standing at or
   * before the start of `f` has its body start no later than the body of `f`.
   */
  lemma HeaderBound(u: string, f: Block, c: Block)
    requires IsBlockAt(u, f) && BodyAt(f) < |u| && u[BodyAt(f)] == '\n'
    requires IsBlockAt(u, c) && c.start <= f.start
    ensures BodyAt(c) <= BodyAt(f)
  {
    CloseBeforeFence(u, f, c);
    SpanChars(u, SpaceAt(c), c.tail.space, SpaceChar);
    AtChars(u, FenceAt(f), Fence);
    assert u[FenceAt(f)] == '`';
    assert FenceAt(c) <= FenceAt(f);
    SpanChars(u, TagAt(c), c.tail.tag, TagChar);
    if FenceAt(c) < FenceAt(f) {
      BeforeFence(u, f);
      AtChars(u, FenceAt(c), Fence);
    }
  }

  // Blocks carried between two texts that agree on a window.

  /** `c` moved from `from` to `to`, with a body of `body` characters. */
  function Shift(c: Block, from: nat, to: nat, body: nat): (r: Block)
    requires from <= c.start
    ensures r.start - to == c.start - from && r.name == c.name && BodyAt(r) - to == BodyAt(c) - from
  {
    Block(to + (c.start - from), c.name, Tail(c.tail.space, c.tail.tag, body))
  }

  /**
   * A block of `v` whose header lies in a window that `u` shares stands in
   * `u` too, ending at any fence of `u` after its header.
   */
  lemma HeaderMoves(u: string, a: nat, v: string, b: nat, n: nat, c: Block, body: nat)
    requires Agree(u, a, v, b, n) && IsBlockAt(v, c) && b <= c.start && BodyAt(c) <= b + n
    requires 0 < body && At(u, a + (BodyAt(c) - b) + body, Fence)
    ensures IsBlockAt(u, Shift(c, b, a, body))
  {
    AtWindow(u, a, v, b, n, c.start, AnchorOpen);
    SpanWindow(u, a, v, b, n, NameAt(c), c.name, LineChar);
    AtWindow(u, a, v, b, n, CloseAt(c), AnchorClose);
    SpanWindow(u, a, v, b, n, SpaceAt(c), c.tail.space, SpaceChar);
    AtWindow(u, a, v, b, n, FenceAt(c), Fence);
    SpanWindow(u, a, v, b, n, TagAt(c), c.tail.tag, TagChar);
  }

  /** The same, for a block of `u` that ends at the fence at `y`. */
  lemma HeaderMovesTo(u: string, a: nat, v: string, b: nat, n: nat, c: Block, y: nat)
    requires Agree(u, a, v, b, n) && IsBlockAt(v, c) && b <= c.start && BodyAt(c) <= b + n
    requires a + (BodyAt(c) - b) < y && At(u, y, Fence)
    ensures IsBlockAt(u, Shift(c, b, a, y - (a + (BodyAt(c) - b))))
  {
    HeaderMoves(u, a, v, b, n, c, y - (a + (BodyAt(c) - b)));
  }

  lemma AgreeBack(u: string, a: nat, v: string, b: nat, n: nat)
    requires Agree(u, a, v, b, n)
    ensures Agree(v, b, u, a, n)
  {
    forall j | b <= j < b + n ensures v[j] == u[a + (j - b)] {
      assert u[a + (j - b)] == v[b + (a + (j - b) - a)];
    }
  }

  // The new bodies.

  /** A body as `replaceExamples` writes it: a newline first and last, and no fence inside. */
  predicate Fresh(x: string)
  {
    2 <= |x| && x[0] == '\n' && x[|x| - 1] == '\n' && !Contains(x, Fence)
  }

  /** A fresh body holds no fence after its first character, nor one that runs into what follows it. */
  lemma FreshLazy(u: string, i: nat, x: string)
    requires Fresh(x) && Agree(u, i, x, 0, |x|)
    ensures NoFence(u, i + 1, i + |x|)
  {
    forall z | i + 1 <= z < i + |x| ensures !At(u, z, Fence) {
      if z + |Fence| <= i + |x| {
        AtWindow(u, i, x, 0, |x|, z - i, Fence);
      } else {
        AtSlice(u, z, Fence);
        assert u[i + |x| - 1] == x[|x| - 1];
        if z + |Fence| <= |u| {
          assert u[z..z + |Fence|][i + |x| - 1 - z] == '\n';
        }
      }
    }
  }

  /** Two fence-free texts around a character that is no backtick give a fence-free text. */
  lemma NoFenceAcross(a: string, m: char, b: string)
    requires !Contains(a, Fence) && !Contains(b, Fence) && m != '`'
    ensures !Contains(a + [m] + b, Fence)
  {
    var s := a + [m] + b;
    assert Agree(a, 0, s, 0, |a|);
    assert Agree(b, 0, s, |a| + 1, |b|);
    forall i: nat | i <= |s| ensures !At(s, i, Fence) {
      if i + |Fence| <= |a| {
        AtWindow(a, 0, s, 0, |a|, i, Fence);
      } else if |a| < i {
        if i + |Fence| <= |s| {
          AtWindow(b, 0, s, |a| + 1, |b|, i, Fence);
        }
      } else {
        AtSlice(s, i, Fence);
        if i + |Fence| <= |s| {
          assert s[i..i + |Fence|][|a| - i] == m;
        }
      }
    }
  }

  lemma {:induction false} JoinNoFence(parts: seq<string>)
    requires forall k :: 0 <= k < |parts| ==> !Contains(parts[k], Fence)
    ensures !Contains(Join(parts, "\n"), Fence)
    decreases |parts|
  {
    if |parts| > 1 {
      JoinNoFence(parts[1..]);
      NoFenceAcross(parts[0], '\n', Join(parts[1..], "\n"));
      assert Join(parts, "\n") == parts[0] + ['\n'] + Join(parts[1..], "\n");
    }
  }

  /** The body `replaceExamples` writes for a name whose codes hold no fence is fresh. */
  lemma NewBodyFresh(examples: ExampleMap, name: string)
    requires forall code :: code in Get(examples, name) ==> !Contains(code, Fence)
    ensures Fresh(NewBody(examples, name))
  {
    var j := Join(Get(examples, name), "\n");
    JoinNoFence(Get(examples, name));
    NoFenceAcross("", '\n', j);
    assert "" + ['\n'] + j == "\n" + j;
    NoFenceAcross("\n" + j, '\n', "");
    assert NewBody(examples, name) == ("\n" + j) + ['\n'] + "";
  }

  // The search over the rewritten text.

  /** Positions where the scanner finds nothing are skipped. */
  lemma {:induction false} BlocksFromSkip(u: string, q: nat, r: nat)
    requires q <= r && forall z :: q <= z < r ==> AnchorAt(u, z).None?
    ensures BlocksFrom(u, q) == BlocksFrom(u, r)
    decreases r - q
  {
    if q < r {
      BlocksFromSkip(u, q + 1, r);
    }
  }

  /** Where the scanner finds nothing from `q` on, the search finds nothing. */
  lemma {:induction false} BlocksFromNothing(u: string, q: nat)
    requires forall z :: q <= z ==> AnchorAt(u, z).None?
    ensures BlocksFrom(u, q) == []
    decreases |u| - q
  {
    if q < |u| {
      BlocksFromNothing(u, q + 1);
    }
  }

  /** Where `u` from `q` on is four pieces in a row, each piece stands in its place. */
  lemma Pieces(u: string, q: nat, h: string, x: string, cl: string, tail: string)
    requires q <= |u| && u[q..] == h + x + cl + tail
    ensures Agree(u, q, h, 0, |h|) && Agree(u, q + |h|, x, 0, |x|)
    ensures u[q + |h| + |x|..q + |h| + |x| + |cl|] == cl && u[q + |h| + |x| + |cl|..] == tail
  {
    var w := u[q..];
    forall j | q <= j < q + |h| ensures u[j] == h[0 + (j - q)] {
      assert u[j] == w[j - q];
    }
    forall j | q + |h| <= j < q + |h| + |x| ensures u[j] == x[0 + (j - (q + |h|))] {
      assert u[j] == w[j - q];
    }
    assert w[|h| + |x|..|h| + |x| + |cl|] == cl;
    assert w[|h| + |x| + |cl|..] == tail;
  }

  /** A window on a slice of `t` is a window on `t`. */
  lemma AgreeSlice(u: string, q: nat, t: string, p: nat, k: nat)
    requires p <= k <= |t| && Agree(u, q, t[p..k], 0, k - p)
    ensures Agree(u, q, t, p, k - p)
  {
    forall j | q <= j < q + (k - p) ensures u[j] == t[p + (j - q)] {
      assert u[j] == t[p..k][j - q];
    }
  }

  /** The text and the new body of the first block of a splice, in the spliced text `u` from `q` on. */
  lemma SpliceHead(t: string, u: string, p: nat, q: nat, b: Block, x: string, tail: string)
    requires p <= b.start && End(b) <= |t| && q <= |u|
    requires u[q..] == t[p..BodyAt(b)] + x + t[EndFenceAt(b)..End(b)] + tail
    ensures Agree(u, q, t, p, BodyAt(b) - p) && Agree(u, q + (BodyAt(b) - p), x, 0, |x|)
  {
    Pieces(u, q, t[p..BodyAt(b)], x, t[EndFenceAt(b)..End(b)], tail);
    AgreeSlice(u, q, t, p, BodyAt(b));
  }

  /** The closing fence of the first block of a splice, and the rest of the splice after it. */
  lemma SpliceClose(t: string, u: string, p: nat, q: nat, b: Block, x: string, tail: string)
    requires IsBlockAt(t, b) && p <= b.start && End(b) <= |t| && q <= |u|
    requires u[q..] == t[p..BodyAt(b)] + x + t[EndFenceAt(b)..End(b)] + tail
    ensures var e := q + (BodyAt(b) - p) + |x|;
      && At(u, e, Fence) && u[e + |Fence|..] == tail
  {
    var e := q + (BodyAt(b) - p) + |x|;
    Pieces(u, q, t[p..BodyAt(b)], x, t[EndFenceAt(b)..End(b)], tail);
    AtSlice(t, EndFenceAt(b), Fence);
    AtSlice(u, e, Fence);
  }

  /** The first block, with its new body, stands in the spliced text; the new body starts with a newline. */
  lemma NewBlock(t: string, u: string, p: nat, q: nat, b: Block, x: string)
    requires IsBlockAt(t, b) && p <= b.start && End(b) <= |t| && Fresh(x)
    requires Agree(u, q, t, p, BodyAt(b) - p) && Agree(u, q + (BodyAt(b) - p), x, 0, |x|)
    requires At(u, q + (BodyAt(b) - p) + |x|, Fence)
    ensures var b2 := Shift(b, p, q, |x|);
      && IsBlockAt(u, b2) && BodyAt(b2) < |u| && u[BodyAt(b2)] == '\n' && End(b2) <= |u|
  {
    var n := BodyAt(b) - p;
    var e := q + n;
    HeaderMoves(u, q, t, p, n, b, |x|);
    assert u[e] == x[0];
    AtChars(u, e + |x|, Fence);
  }

  /** A block whose body is fresh has the shortest body. */
  lemma NewBlockLazy(u: string, b2: Block, x: string)
    requires Fresh(x) && b2.tail.body == |x| && Agree(u, BodyAt(b2), x, 0, |x|)
    ensures Lazy(u, b2)
  {
    FreshLazy(u, BodyAt(b2), x);
  }

  /** The first block keeps its name and has the new body. */
  lemma NewBlockParts(t: string, u: string, p: nat, q: nat, b: Block, x: string)
    requires p <= b.start && End(b) <= |t|
    requires Agree(u, q, t, p, BodyAt(b) - p) && Agree(u, q + (BodyAt(b) - p), x, 0, |x|)
    requires At(u, q + (BodyAt(b) - p) + |x|, Fence)
    ensures var b2 := Shift(b, p, q, |x|);
      && End(b2) <= |u| && Name(u, b2) == Name(t, b) && Body(u, b2) == x
  {
    var n := BodyAt(b) - p;
    var e := q + n;
    AtChars(u, e + |x|, Fence);
    SliceWindow(u, q, t, p, n, NameAt(b), CloseAt(b));
    SliceWindow(u, e, x, 0, |x|, 0, |x|);
  }

  /** Before the first block's new place, no block of the spliced text starts in the window. */
  lemma NothingBefore(t: string, u: string, p: nat, q: nat, b: Block, b2: Block, z: nat)
    requires IsBlockAt(t, b) && p <= b.start && End(b) <= |t|
    requires forall c :: IsBlockAt(t, c) ==> !(p <= c.start < b.start)
    requires Agree(u, q, t, p, BodyAt(b) - p)
    requires b2.start - q == b.start - p && BodyAt(b2) - q == BodyAt(b) - p
    requires IsBlockAt(u, b2) && BodyAt(b2) < |u| && u[BodyAt(b2)] == '\n'
    requires q <= z < b2.start
    ensures AnchorAt(u, z).None?
  {
    AnchorAtSound(u, z);
    if AnchorAt(u, z).Some? {
      var c := AnchorAt(u, z).value;
      HeaderBound(u, b2, c);
      AgreeBack(u, q, t, p, BodyAt(b) - p);
      HeaderMovesTo(t, p, u, q, BodyAt(b) - p, c, EndFenceAt(b));
    }
  }

  /** At its new place the scanner picks the first block again. */
  lemma StillChosen(t: string, u: string, p: nat, q: nat, b: Block, b2: Block)
    requires AnchorAt(t, b.start) == Some(b) && p <= b.start && End(b) <= |t|
    requires Agree(u, q, t, p, BodyAt(b) - p)
    requires b2.start - q == b.start - p && b2.name == b.name && b2.tail.space == b.tail.space && b2.tail.tag == b.tail.tag
    requires IsBlockAt(u, b2) && Lazy(u, b2) && BodyAt(b2) < |u| && u[BodyAt(b2)] == '\n'
    ensures AnchorAt(u, b2.start) == Some(b2)
  {
    AnchorAtChoice(t, b.start, b);
    AgreeBack(u, q, t, p, BodyAt(b) - p);
    forall c | IsBlockAt(u, c) && c.start == b2.start ensures Preferred(b2, c) {
      HeaderBound(u, b2, c);
      HeaderMovesTo(t, p, u, q, BodyAt(b) - p, c, EndFenceAt(b));
    }
    AnchorAtChoice(u, b2.start, b2);
  }

  /** After the last block the spliced text is the original one, where no block starts. */
  lemma NothingAfter(t: string, u: string, p: nat, q: nat, z: nat)
    requires forall c :: IsBlockAt(t, c) ==> c.start < p
    requires p <= |t| && q <= |u| && u[q..] == t[p..] && q <= z
    ensures AnchorAt(u, z).None?
  {
    var n := |u| - q;
    forall j | p <= j < p + n ensures t[j] == u[q + (j - p)] {
      assert t[j] == t[p..][j - p];
    }
    AnchorAtSound(u, z);
    if AnchorAt(u, z).Some? {
      var c := AnchorAt(u, z).value;
      AtWindow(t, p, u, q, n, EndFenceAt(c), Fence);
      HeaderMoves(t, p, u, q, n, c, c.tail.body);
    }
  }

  lemma RestChosen(t: string, bs: seq<Block>)
    requires bs != [] && Chosen(t, bs) && AllBlocks(t, bs)
    ensures Chosen(t, bs[1..]) && AllBlocks(t, bs[1..])
  {
    forall k | 0 <= k < |bs| - 1 ensures bs[1..][k] == bs[k + 1] {
    }
  }

  /** The first block of a splice with a fresh body, at its new place in the spliced text. */
  lemma SpliceFirst(t: string, u: string, p: nat, q: nat, b: Block, x: string, tail: string)
    requires IsBlockAt(t, b) && p <= b.start && End(b) <= |t| && Fresh(x) && q <= |u|
    requires u[q..] == t[p..BodyAt(b)] + x + t[EndFenceAt(b)..End(b)] + tail
    ensures var b2 := Shift(b, p, q, |x|);
      && Agree(u, q, t, p, BodyAt(b) - p)
      && IsBlockAt(u, b2) && Lazy(u, b2) && BodyAt(b2) < |u| && u[BodyAt(b2)] == '\n'
      && End(b2) <= |u| && Name(u, b2) == Name(t, b) && Body(u, b2) == x && u[End(b2)..] == tail
  {
    SpliceHead(t, u, p, q, b, x, tail);
    SpliceClose(t, u, p, q, b, x, tail);
    NewBlock(t, u, p, q, b, x);
    NewBlockParts(t, u, p, q, b, x);
    NewBlockLazy(u, Shift(b, p, q, |x|), x);
  }

  /**
   * The search over a text spliced from `t` with fresh bodies finds the
   * first block of `t` again, at its new place, with its name and new body.
   */
  lemma StableStep(t: string, u: string, p: nat, q: nat, bs: seq<Block>, bodies: seq<string>)
    requires bs != [] && Laid(t, p, bs) && Leftmost(t, p, bs) && Chosen(t, bs) && AllBlocks(t, bs)
    requires |bodies| == |bs| && Fresh(bodies[0])
    requires q <= |u| && u[q..] == Splice(t, p, bs, bodies)
    ensures var b2 := Shift(bs[0], p, q, |bodies[0]|);
      && End(b2) <= |u| && BlocksFrom(u, q) == [b2] + BlocksFrom(u, End(b2))
      && Name(u, b2) == Name(t, bs[0]) && Body(u, b2) == bodies[0]
      && u[End(b2)..] == Splice(t, End(bs[0]), bs[1..], bodies[1..])
  {
    var b, x := bs[0], bodies[0];
    SpliceFirst(t, u, p, q, b, x, Splice(t, End(b), bs[1..], bodies[1..]));
    var b2 := Shift(b, p, q, |x|);
    forall z | q <= z < b2.start ensures AnchorAt(u, z).None? {
      NothingBefore(t, u, p, q, b, b2, z);
    }
    StillChosen(t, u, p, q, b, b2);
    BlocksFromSkip(u, q, b2.start);
  }

  /**
   * The search over a text spliced from `t` with fresh bodies finds the
   * blocks of `t` again, one for one, with their names and the new bodies.
   */
  lemma {:induction false} StableFrom(t: string, u: string, p: nat, q: nat, bs: seq<Block>, bodies: seq<string>)
    requires Laid(t, p, bs) && Leftmost(t, p, bs) && Chosen(t, bs) && AllBlocks(t, bs)
    requires |bodies| == |bs| && forall k :: 0 <= k < |bs| ==> Fresh(bodies[k])
    requires q <= |u| && u[q..] == Splice(t, p, bs, bodies)
    ensures var ms := BlocksFrom(u, q);
      && |ms| == |bs| && Inside(u, ms) && Inside(t, bs)
      && forall k :: 0 <= k < |bs| ==> Name(u, ms[k]) == Name(t, bs[k]) && Body(u, ms[k]) == bodies[k]
    decreases |bs|
  {
    LaidInside(t, p, bs);
    if bs == [] {
      forall z | q <= z ensures AnchorAt(u, z).None? {
        NothingAfter(t, u, p, q, z);
      }
      BlocksFromNothing(u, q);
    } else {
      StableStep(t, u, p, q, bs, bodies);
      var b2 := Shift(bs[0], p, q, |bodies[0]|);
      RestChosen(t, bs);
      StableFrom(t, u, End(bs[0]), End(b2), bs[1..], bodies[1..]);
      StableCons(t, u, bs, bodies, b2, BlocksFrom(u, End(b2)));
    }
  }

  lemma StableCons(t: string, u: string, bs: seq<Block>, bodies: seq<string>, b2: Block, rest: seq<Block>)
    requires bs != [] && |bodies| == |bs| && |rest| == |bs| - 1 && Inside(t, bs) && Inside(u, rest) && End(b2) <= |u|
    requires Name(u, b2) == Name(t, bs[0]) && Body(u, b2) == bodies[0]
    requires forall k :: 0 <= k < |rest| ==> Name(u, rest[k]) == Name(t, bs[1..][k]) && Body(u, rest[k]) == bodies[1..][k]
    ensures var ms := [b2] + rest;
      && Inside(u, ms)
      && forall k :: 0 <= k < |bs| ==> Name(u, ms[k]) == Name(t, bs[k]) && Body(u, ms[k]) == bodies[k]
  {
    var ms := [b2] + rest;
    forall k | 1 <= k < |bs| ensures End(ms[k]) <= |u| && Name(u, ms[k]) == Name(t, bs[k]) && Body(u, ms[k]) == bodies[k] {
      assert ms[k] == rest[k - 1] && bs[k] == bs[1..][k - 1] && bodies[k] == bodies[1..][k - 1];
    }
  }

  /** The search over a rewritten file finds its blocks again, with their names and the bodies written for them. */
  lemma RewrittenBlocks(t: string, examples: ExampleMap)
    requires forall name, code :: code in Get(examples, name) ==> !Contains(code, Fence)
    ensures var bs, u := Blocks(t), ReplaceExamplesText(t, examples);
      && |Blocks(u)| == |bs| && Inside(u, Blocks(u)) && Inside(t, bs)
      && forall k :: 0 <= k < |bs| ==>
           Name(u, Blocks(u)[k]) == Name(t, bs[k]) && Body(u, Blocks(u)[k]) == NewBody(examples, Name(t, bs[k]))
  {
    var bs := Blocks(t);
    var u := ReplaceExamplesText(t, examples);
    ReplaceExamplesBodies(t, examples);
    var bodies := NewBodies(t, bs, examples);
    BlocksFromLeftmost(t, 0);
    BlocksFromChosen(t, 0);
    BlocksFromFound(t, 0);
    forall k | 0 <= k < |bs| ensures Fresh(bodies[k]) {
      NewBodyFresh(examples, Name(t, bs[k]));
    }
    assert u[0..] == u;
    StableFrom(t, u, 0, 0, bs, bodies);
  }

  /**
   * `replaceExamples` is idempotent: rewriting a rewritten file with the same
   * collected examples gives it back unchanged, provided no collected code
   * holds a fence of three backticks (one would close a block early on the
   * second search).
   */
  lemma ReplaceExamplesIdempotent(t: string, examples: ExampleMap)
    requires forall name, code :: code in Get(examples, name) ==> !Contains(code, Fence)
    ensures ReplaceExamplesText(ReplaceExamplesText(t, examples), examples) == ReplaceExamplesText(t, examples)
  {
    var u := ReplaceExamplesText(t, examples);
    RewrittenBlocks(t, examples);
    var ms := Blocks(u);
    ReplaceExamplesBodies(u, examples);
    var again, own := NewBodies(u, ms, examples), Bodies(u, ms);
    forall k | 0 <= k < |ms| ensures again[k] == own[k] {
      assert again[k] == NewBody(examples, Name(u, ms[k]));
    }
    assert again == own;
  }
}
