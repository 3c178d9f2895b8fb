/**
 * The documentation side: the anchored code-block pattern of `exampleRegex`
 * (lib/index.ts:95-100) as a hand-written scanner, and the rewrite
 * `replaceExamples` applies to one documentation file (lib/index.ts:142-150).
 *
 * A block is `<!---NAME-->`, white space, an opening fence with a tag, a
 * body of at least one character, and the closing fence:
 * `(<!---NAME-->\s*```[A-z0-9]*)(.+?)(```)` with the `s` flag. The pattern
 * is tried at every position, leftmost first, and the search goes on after
 * the end of each match.
 */
module DocBlocks {
  import opened Wrappers
  import opened Text
  import opened ExampleMaps

  const AnchorOpen: string := "<!---"
  const AnchorClose: string := "-->"
  const Fence: string := "```"

  /** What the pattern measures after `-->`: the white space, the tag and the body, by length. */
  datatype Tail = Tail(space: nat, tag: nat, body: nat)

  /** One match: where it starts, the length of its name, and its tail. */
  datatype Block = Block(start: nat, name: nat, tail: Tail)

  /** Where the parts of a block stand. */
  function NameAt(b: Block): nat { b.start + |AnchorOpen| }
  function CloseAt(b: Block): nat { NameAt(b) + b.name }
  function SpaceAt(b: Block): nat { CloseAt(b) + |AnchorClose| }
  function FenceAt(b: Block): nat { SpaceAt(b) + b.tail.space }
  function TagAt(b: Block): nat { FenceAt(b) + |Fence| }
  function BodyAt(b: Block): nat { TagAt(b) + b.tail.tag }
  function EndFenceAt(b: Block): nat { BodyAt(b) + b.tail.body }
  function End(b: Block): nat { EndFenceAt(b) + |Fence| }

  // The scanner.

  /** The first fence at or after `k`: where the lazy body `(.+?)` stops. */
  function FenceFrom(t: string, k: nat): (r: Option<nat>)
    ensures r.Some? ==> k <= r.value && r.value + |Fence| <= |t|
    decreases |t| - k
  {
    if |t| < k + |Fence| then None
    else if At(t, k, Fence) then Some(k)
    else FenceFrom(t, k + 1)
  }

  /**
   * The tag `[A-z0-9]*` at `a` with `g` characters, then a body of at least
   * one character and a fence; when no fence follows, the tag gives back one
   * character at a time (backtracking).
   */
  function TagFrom(t: string, w: nat, a: nat, g: nat): (r: Option<Tail>)
    ensures r.Some? ==> r.value.space == w && a + r.value.tag + r.value.body + |Fence| <= |t|
    decreases g
  {
    match FenceFrom(t, a + g + 1)
    case Some(j) => Some(Tail(w, g, j - (a + g)))
    case None => if g == 0 then None else TagFrom(t, w, a, g - 1)
  }

  /**
   * What follows `-->` at `h`: the white space `\s*`, then the opening fence,
   * tag, body and closing fence. The white space never gives characters
   * back: a white-space character is not the fence's backtick.
   */
  function TailAt(t: string, h: nat): (r: Option<Tail>)
    requires h <= |t|
    ensures r.Some? ==> h + r.value.space + |Fence| + r.value.tag + r.value.body + |Fence| <= |t|
  {
    var w := Run(t, h, SpaceChar);
    if !At(t, h + w, Fence) then None
    else TagFrom(t, w, h + w + |Fence|, Run(t, h + w + |Fence|, TagChar))
  }

  /**
   * The lazy name `(.+?)` of the block at `q`: `n` characters first, then
   * longer ones, as long as the name stays within the `line` characters
   * before the next newline.
   */
  function NameFrom(t: string, q: nat, line: nat, n: nat): (r: Option<Block>)
    requires 1 <= n && q + |AnchorOpen| + line <= |t|
    ensures r.Some? ==> r.value.start == q && End(r.value) <= |t|
    decreases line + 1 - n
  {
    var c := q + |AnchorOpen| + n;
    if line < n then None
    else if At(t, c, AnchorClose) && TailAt(t, c + |AnchorClose|).Some? then
      Some(Block(q, n, TailAt(t, c + |AnchorClose|).value))
    else NameFrom(t, q, line, n + 1)
  }

  /** The pattern `exampleRegex('(.+?)')` (lib/index.ts:143) tried at position `q`. */
  function AnchorAt(t: string, q: nat): (r: Option<Block>)
    ensures r.Some? ==> r.value.start == q && End(r.value) <= |t|
  {
    if !At(t, q, AnchorOpen) then None
    else NameFrom(t, q, Run(t, q + |AnchorOpen|, LineChar), 1)
  }

  /** The pattern `exampleRegex(name)` (lib/index.ts:189) tried at position `q`: the name is given. */
  function NamedAt(t: string, name: string, q: nat): (r: Option<Block>)
    ensures r.Some? ==> r.value.start == q && r.value.name == |name| && End(r.value) <= |t|
  {
    if !At(t, q, AnchorOpen + name + AnchorClose) then None
    else
      match TailAt(t, q + |AnchorOpen| + |name| + |AnchorClose|)
      case None => None
      case Some(tail) => Some(Block(q, |name|, tail))
  }

  /** The matches of `exampleRegex('(.+?)')` from `p` on, in order: each the leftmost after the previous one's end. */
  function BlocksFrom(t: string, p: nat): seq<Block>
    decreases |t| - p
  {
    if |t| <= p then []
    else
      match AnchorAt(t, p)
      case Some(b) => [b] + BlocksFrom(t, End(b))
      case None => BlocksFrom(t, p + 1)
  }

  function Blocks(t: string): seq<Block>
  {
    BlocksFrom(t, 0)
  }

  /** The matches of `exampleRegex(name)` from `p` on, in order. */
  function NamedBlocksFrom(t: string, name: string, p: nat): seq<Block>
    decreases |t| - p
  {
    if |t| <= p then []
    else
      match NamedAt(t, name, p)
      case Some(b) => [b] + NamedBlocksFrom(t, name, End(b))
      case None => NamedBlocksFrom(t, name, p + 1)
  }

  function NamedBlocks(t: string, name: string): seq<Block>
  {
    NamedBlocksFrom(t, name, 0)
  }

  // What a block is.

  /** From `-->` on, `b` stands in `t`: white space, a fence, a tag, a body of at least one character and a fence. */
  ghost predicate TailIsAt(t: string, b: Block)
  {
    && Span(t, SpaceAt(b), b.tail.space, SpaceChar)
    && At(t, FenceAt(b), Fence)
    && Span(t, TagAt(b), b.tail.tag, TagChar)
    && b.tail.body > 0
    && At(t, EndFenceAt(b), Fence)
  }

  /** `b` stands in `t` as the pattern with a name of one line. */
  ghost predicate IsBlockAt(t: string, b: Block)
  {
    && At(t, b.start, AnchorOpen)
    && b.name > 0 && Span(t, NameAt(b), b.name, LineChar)
    && At(t, CloseAt(b), AnchorClose)
    && TailIsAt(t, b)
  }

  /** `b` stands in `t` as the pattern with the given name. */
  ghost predicate IsNamedAt(t: string, name: string, b: Block)
  {
    At(t, b.start, AnchorOpen + name + AnchorClose) && b.name == |name| && TailIsAt(t, b)
  }

  /** No fence starts at any position from `i` up to `j`. */
  predicate NoFence(t: string, i: nat, j: nat)
  {
    forall x :: i <= x < j ==> !At(t, x, Fence)
  }

  /** The body is the shortest one: no fence starts inside it after its first character. */
  predicate Lazy(t: string, b: Block)
  {
    NoFence(t, BodyAt(b) + 1, EndFenceAt(b))
  }

  // The scanner finds blocks.

  lemma {:induction false} FenceFromSound(t: string, k: nat)
    ensures FenceFrom(t, k).Some? ==> At(t, FenceFrom(t, k).value, Fence) && NoFence(t, k, FenceFrom(t, k).value)
    decreases |t| - k
  {
    if k + |Fence| <= |t| && !At(t, k, Fence) {
      FenceFromSound(t, k + 1);
    }
  }

  lemma {:induction false} TagFromSound(t: string, w: nat, a: nat, g: nat)
    ensures TagFrom(t, w, a, g).Some? ==>
      var r := TagFrom(t, w, a, g).value;
      && r.space == w && r.tag <= g && r.body > 0
      && At(t, a + r.tag + r.body, Fence) && NoFence(t, a + r.tag + 1, a + r.tag + r.body)
    decreases g
  {
    FenceFromSound(t, a + g + 1);
    if FenceFrom(t, a + g + 1).None? && g > 0 {
      TagFromSound(t, w, a, g - 1);
    }
  }

  /** What the tail scanner finds after `-->` stands there, and its body is the shortest. */
  lemma TailAtSound(t: string, b: Block)
    requires SpaceAt(b) <= |t| && TailAt(t, SpaceAt(b)) == Some(b.tail)
    ensures TailIsAt(t, b) && Lazy(t, b)
  {
    var h := SpaceAt(b);
    var w := Run(t, h, SpaceChar);
    var g := Run(t, h + w + |Fence|, TagChar);
    assert TailAt(t, h) == TagFrom(t, w, h + w + |Fence|, g);
    TagFromSound(t, w, h + w + |Fence|, g);
    RunCovers(t, h, SpaceChar);
    RunCovers(t, h + w + |Fence|, TagChar);
    SpanPrefix(t, TagAt(b), g, b.tail.tag, TagChar);
  }

  lemma {:induction false} NameFromSound(t: string, q: nat, line: nat, n: nat)
    requires 1 <= n && q + |AnchorOpen| + line <= |t|
    ensures NameFrom(t, q, line, n).Some? ==>
      var b := NameFrom(t, q, line, n).value;
      && n <= b.name <= line && At(t, CloseAt(b), AnchorClose)
      && SpaceAt(b) <= |t| && TailAt(t, SpaceAt(b)) == Some(b.tail)
    decreases line + 1 - n
  {
    var c := q + |AnchorOpen| + n;
    if n <= line && !(At(t, c, AnchorClose) && TailAt(t, c + |AnchorClose|).Some?) {
      NameFromSound(t, q, line, n + 1);
    }
  }

  /** Whatever the scanner finds at `q` is a block standing there, with the shortest body. */
  lemma AnchorAtSound(t: string, q: nat)
    ensures AnchorAt(t, q).Some? ==> IsBlockAt(t, AnchorAt(t, q).value) && Lazy(t, AnchorAt(t, q).value)
  {
    if AnchorAt(t, q).Some? {
      var b := AnchorAt(t, q).value;
      var line := Run(t, q + |AnchorOpen|, LineChar);
      assert AnchorAt(t, q) == NameFrom(t, q, line, 1);
      NameFromSound(t, q, line, 1);
      RunCovers(t, q + |AnchorOpen|, LineChar);
      SpanPrefix(t, NameAt(b), line, b.name, LineChar);
      TailAtSound(t, b);
    }
  }

  /** Whatever the named scanner finds at `q` is a block with that name, with the shortest body. */
  lemma NamedAtSound(t: string, name: string, q: nat)
    ensures NamedAt(t, name, q).Some? ==> IsNamedAt(t, name, NamedAt(t, name, q).value) && Lazy(t, NamedAt(t, name, q).value)
  {
    if NamedAt(t, name, q).Some? {
      TailAtSound(t, NamedAt(t, name, q).value);
    }
  }

  // The scanner finds the match the pattern's backtracking picks.

  /**
   * The order in which backtracking tries the tails after `-->`: the white
   * space is the same, then the longer tag first, then the shorter body.
   */
  predicate TailPreferred(f: Tail, b: Tail)
  {
    f.space == b.space && (f.tag > b.tag || (f.tag == b.tag && f.body <= b.body))
  }

  /** The order in which backtracking tries blocks at one position: the shorter name first, then the tail. */
  predicate Preferred(f: Block, b: Block)
  {
    f.name < b.name || (f.name == b.name && TailPreferred(f.tail, b.tail))
  }

  /** A fence at `j` is found when the search starts at or before it. */
  lemma {:induction false} FenceFromFirst(t: string, k: nat, j: nat)
    requires k <= j && At(t, j, Fence)
    ensures FenceFrom(t, k).Some? && FenceFrom(t, k).value <= j
    decreases j - k
  {
    AtSlice(t, j, Fence);
    if !At(t, k, Fence) {
      FenceFromFirst(t, k + 1, j);
    }
  }

  /** Whenever a tag of at most `g` characters has a body and a fence after it, the tag scanner finds one no worse. */
  lemma {:induction false} TagFromPriority(t: string, w: nat, a: nat, g: nat, tag: nat, body: nat)
    requires tag <= g && body > 0 && At(t, a + tag + body, Fence)
    ensures TagFrom(t, w, a, g).Some? && TailPreferred(TagFrom(t, w, a, g).value, Tail(w, tag, body))
    decreases g
  {
    if g == tag {
      FenceFromFirst(t, a + g + 1, a + tag + body);
    } else if FenceFrom(t, a + g + 1).None? {
      TagFromPriority(t, w, a, g - 1, tag, body);
    }
  }

  /** Whenever a tail stands after `-->`, the tail scanner finds one, and the one it finds is preferred. */
  lemma TailAtPriority(t: string, b: Block)
    requires TailIsAt(t, b)
    ensures SpaceAt(b) <= |t| && TailAt(t, SpaceAt(b)).Some?
    ensures TailPreferred(TailAt(t, SpaceAt(b)).value, b.tail)
  {
    var h := SpaceAt(b);
    AtFirst(t, FenceAt(b), Fence);
    AtSlice(t, FenceAt(b), Fence);
    RunOver(t, h, b.tail.space, SpaceChar);
    var g := Run(t, TagAt(b), TagChar);
    RunAtLeast(t, TagAt(b), b.tail.tag, TagChar);
    assert TailAt(t, h) == TagFrom(t, b.tail.space, TagAt(b), g);
    TagFromPriority(t, b.tail.space, TagAt(b), g, b.tail.tag, b.tail.body);
  }

  /** Trying names of `n` characters and longer finds a block no worse than `b`. */
  lemma {:induction false} NameFromPriority(t: string, q: nat, line: nat, n: nat, b: Block)
    requires 1 <= n <= b.name <= line && q + |AnchorOpen| + line <= |t| && b.start == q
    requires At(t, CloseAt(b), AnchorClose) && TailIsAt(t, b)
    ensures NameFrom(t, q, line, n).Some? && Preferred(NameFrom(t, q, line, n).value, b)
    decreases b.name - n
  {
    var c := q + |AnchorOpen| + n;
    if n == b.name {
      TailAtPriority(t, b);
    } else if !(At(t, c, AnchorClose) && TailAt(t, c + |AnchorClose|).Some?) {
      NameFromPriority(t, q, line, n + 1, b);
    }
  }

  /**
   * Completeness: wherever a block stands, the scanner finds one at its
   * start, and the one it finds comes first in the backtracking order.
   */
  lemma AnchorAtPriority(t: string, b: Block)
    requires IsBlockAt(t, b)
    ensures AnchorAt(t, b.start).Some? && Preferred(AnchorAt(t, b.start).value, b)
  {
    var line := Run(t, b.start + |AnchorOpen|, LineChar);
    RunAtLeast(t, NameAt(b), b.name, LineChar);
    NameFromPriority(t, b.start, line, 1, b);
  }

  /** The same for a given name: the scanner finds a block with the preferred tail. */
  lemma NamedAtPriority(t: string, name: string, b: Block)
    requires IsNamedAt(t, name, b)
    ensures NamedAt(t, name, b.start).Some?
    ensures NamedAt(t, name, b.start).value.name == b.name
    ensures TailPreferred(NamedAt(t, name, b.start).value.tail, b.tail)
  {
    TailAtPriority(t, b);
  }

  /**
   * The scanner's answer at `q` is exactly the block standing at `q` that
   * comes before every other block standing there.
   */
  lemma AnchorAtChoice(t: string, q: nat, f: Block)
    ensures AnchorAt(t, q) == Some(f) <==>
      && IsBlockAt(t, f) && f.start == q
      && forall b :: IsBlockAt(t, b) && b.start == q ==> Preferred(f, b)
  {
    if AnchorAt(t, q) == Some(f) {
      AnchorAtSound(t, q);
      forall b | IsBlockAt(t, b) && b.start == q ensures Preferred(f, b) {
        AnchorAtPriority(t, b);
      }
    }
    if IsBlockAt(t, f) && f.start == q && forall b :: IsBlockAt(t, b) && b.start == q ==> Preferred(f, b) {
      AnchorAtFromChoice(t, f);
    }
  }

  /** A block standing at its start that comes before every other block there is the scanner's answer. */
  lemma AnchorAtFromChoice(t: string, f: Block)
    requires IsBlockAt(t, f) && forall b :: IsBlockAt(t, b) && b.start == f.start ==> Preferred(f, b)
    ensures AnchorAt(t, f.start) == Some(f)
  {
    AnchorAtPriority(t, f);
    AnchorAtSound(t, f.start);
    var g := AnchorAt(t, f.start).value;
    assert Preferred(f, g) && Preferred(g, f);
  }

  /** The same for a given name. */
  lemma NamedAtChoice(t: string, name: string, q: nat, f: Block)
    ensures NamedAt(t, name, q) == Some(f) <==>
      && IsNamedAt(t, name, f) && f.start == q
      && forall b :: IsNamedAt(t, name, b) && b.start == q ==> TailPreferred(f.tail, b.tail)
  {
    if NamedAt(t, name, q) == Some(f) {
      NamedAtSound(t, name, q);
      forall b | IsNamedAt(t, name, b) && b.start == q ensures TailPreferred(f.tail, b.tail) {
        NamedAtPriority(t, name, b);
      }
    }
    if IsNamedAt(t, name, f) && f.start == q && forall b :: IsNamedAt(t, name, b) && b.start == q ==> TailPreferred(f.tail, b.tail) {
      NamedAtFromChoice(t, name, f);
    }
  }

  /** The same for a given name. */
  lemma NamedAtFromChoice(t: string, name: string, f: Block)
    requires IsNamedAt(t, name, f)
    requires forall b :: IsNamedAt(t, name, b) && b.start == f.start ==> TailPreferred(f.tail, b.tail)
    ensures NamedAt(t, name, f.start) == Some(f)
  {
    NamedAtPriority(t, name, f);
    NamedAtSound(t, name, f.start);
    var g := NamedAt(t, name, f.start).value;
    assert TailPreferred(f.tail, g.tail) && TailPreferred(g.tail, f.tail);
  }

  // The matches of a text.

  /** The blocks follow one another from `p` on without overlapping, inside `t`. */
  predicate Laid(t: string, p: nat, bs: seq<Block>)
    decreases |bs|
  {
    if bs == [] then p <= |t|
    else p <= bs[0].start && End(bs[0]) <= |t| && Laid(t, End(bs[0]), bs[1..])
  }

  /** Every block of `bs` lies inside `t`. */
  predicate Inside(t: string, bs: seq<Block>)
  {
    forall k :: 0 <= k < |bs| ==> End(bs[k]) <= |t|
  }

  lemma {:induction false} LaidInside(t: string, p: nat, bs: seq<Block>)
    requires Laid(t, p, bs)
    ensures Inside(t, bs)
    decreases |bs|
  {
    if bs != [] {
      LaidInside(t, End(bs[0]), bs[1..]);
      forall k | 1 <= k < |bs| ensures End(bs[k]) <= |t| {
        assert bs[k] == bs[1..][k - 1];
      }
    }
  }

  /** Every block of `bs` stands in `t`, with the shortest body. */
  ghost predicate AllBlocks(t: string, bs: seq<Block>)
  {
    forall k :: 0 <= k < |bs| ==> IsBlockAt(t, bs[k]) && Lazy(t, bs[k])
  }

  /** Every block of `bs` stands in `t` with the given name, with the shortest body. */
  ghost predicate AllNamed(t: string, name: string, bs: seq<Block>)
  {
    forall k :: 0 <= k < |bs| ==> IsNamedAt(t, name, bs[k]) && Lazy(t, bs[k])
  }

  /**
   * No block standing in `t` starts between `p` and the first block of
   * `bs`, nor between one block's end and the next block, nor after the last.
   */
  ghost predicate Leftmost(t: string, p: nat, bs: seq<Block>)
    decreases |bs|
  {
    if bs == [] then forall b :: IsBlockAt(t, b) ==> b.start < p
    else (forall b :: IsBlockAt(t, b) ==> !(p <= b.start < bs[0].start)) && Leftmost(t, End(bs[0]), bs[1..])
  }

  /** The same for the pattern with a given name. */
  ghost predicate NamedLeftmost(t: string, name: string, p: nat, bs: seq<Block>)
    decreases |bs|
  {
    if bs == [] then forall b :: IsNamedAt(t, name, b) ==> b.start < p
    else (forall b :: IsNamedAt(t, name, b) ==> !(p <= b.start < bs[0].start)) && NamedLeftmost(t, name, End(bs[0]), bs[1..])
  }

  /** Each block of `bs` is what the scanner answers at its start. */
  predicate Chosen(t: string, bs: seq<Block>)
  {
    forall k :: 0 <= k < |bs| ==> AnchorAt(t, bs[k].start) == Some(bs[k])
  }

  /** The same for a given name. */
  predicate NamedChosen(t: string, name: string, bs: seq<Block>)
  {
    forall k :: 0 <= k < |bs| ==> NamedAt(t, name, bs[k].start) == Some(bs[k])
  }

  /** The matches found from `p` on lie in order inside `t`. */
  lemma {:induction false} BlocksFromLaid(t: string, p: nat)
    requires p <= |t|
    ensures Laid(t, p, BlocksFrom(t, p))
    decreases |t| - p
  {
    if p < |t| {
      match AnchorAt(t, p)
      case Some(b) =>
        BlocksFromLaid(t, End(b));
        assert BlocksFrom(t, p)[1..] == BlocksFrom(t, End(b));
      case None =>
        BlocksFromLaid(t, p + 1);
    }
  }

  /** Each match found from `p` on is a block standing in `t`, with the shortest body. */
  lemma {:induction false} BlocksFromFound(t: string, p: nat)
    ensures AllBlocks(t, BlocksFrom(t, p))
    decreases |t| - p
  {
    if p < |t| {
      AnchorAtSound(t, p);
      match AnchorAt(t, p)
      case Some(b) =>
        BlocksFromFound(t, End(b));
        AllBlocksCons(t, b, BlocksFrom(t, End(b)));
      case None =>
        BlocksFromFound(t, p + 1);
    }
  }

  /** No match starts anywhere from `p` on but where the search found one. */
  lemma {:induction false} BlocksFromLeftmost(t: string, p: nat)
    ensures Leftmost(t, p, BlocksFrom(t, p))
    decreases |t| - p
  {
    var bs := BlocksFrom(t, p);
    if |t| <= p {
      forall b | IsBlockAt(t, b) ensures b.start < p {
        AtSlice(t, b.start, AnchorOpen);
      }
    } else {
      match AnchorAt(t, p)
      case Some(b) =>
        BlocksFromLeftmost(t, End(b));
        assert bs[1..] == BlocksFrom(t, End(b));
      case None =>
        BlocksFromLeftmost(t, p + 1);
        LeftmostEarlier(t, p, bs);
    }
  }

  lemma AllBlocksCons(t: string, b: Block, rest: seq<Block>)
    requires IsBlockAt(t, b) && Lazy(t, b) && AllBlocks(t, rest)
    ensures AllBlocks(t, [b] + rest)
  {
    var bs := [b] + rest;
    forall k | 1 <= k < |bs| ensures IsBlockAt(t, bs[k]) && Lazy(t, bs[k]) {
      assert bs[k] == rest[k - 1];
    }
  }

  /** A search that finds nothing at `p` finds what it finds from `p + 1`. */
  lemma LeftmostEarlier(t: string, p: nat, bs: seq<Block>)
    requires AnchorAt(t, p).None? && Leftmost(t, p + 1, bs)
    ensures Leftmost(t, p, bs)
  {
    forall b | IsBlockAt(t, b) ensures b.start != p {
      if b.start == p {
        AnchorAtPriority(t, b);
      }
    }
  }

  /** Every match of the search is the scanner's answer at its start. */
  lemma {:induction false} BlocksFromChosen(t: string, p: nat)
    ensures Chosen(t, BlocksFrom(t, p))
    decreases |t| - p
  {
    if p < |t| {
      match AnchorAt(t, p)
      case Some(b) =>
        BlocksFromChosen(t, End(b));
        ChosenCons(t, b, BlocksFrom(t, End(b)));
      case None =>
        BlocksFromChosen(t, p + 1);
    }
  }

  lemma ChosenCons(t: string, b: Block, rest: seq<Block>)
    requires AnchorAt(t, b.start) == Some(b) && Chosen(t, rest)
    ensures Chosen(t, [b] + rest)
  {
    var bs := [b] + rest;
    forall k | 0 <= k < |bs| ensures AnchorAt(t, bs[k].start) == Some(bs[k]) {
      if k == 0 {
        assert bs[k] == b;
      } else {
        assert bs[k] == rest[k - 1];
      }
    }
  }

  /** Each match of the search comes first, in the backtracking order, among the blocks standing at its start. */
  lemma BlocksPreferred(t: string, k: nat, b: Block)
    requires k < |Blocks(t)| && IsBlockAt(t, b) && b.start == Blocks(t)[k].start
    ensures Preferred(Blocks(t)[k], b)
  {
    BlocksFromChosen(t, 0);
    AnchorAtPriority(t, b);
  }

  lemma {:induction false} NamedBlocksFromLaid(t: string, name: string, p: nat)
    requires p <= |t|
    ensures Laid(t, p, NamedBlocksFrom(t, name, p))
    decreases |t| - p
  {
    if p < |t| {
      match NamedAt(t, name, p)
      case Some(b) =>
        NamedBlocksFromLaid(t, name, End(b));
        assert NamedBlocksFrom(t, name, p)[1..] == NamedBlocksFrom(t, name, End(b));
      case None =>
        NamedBlocksFromLaid(t, name, p + 1);
    }
  }

  lemma {:induction false} NamedBlocksFromFound(t: string, name: string, p: nat)
    ensures AllNamed(t, name, NamedBlocksFrom(t, name, p))
    decreases |t| - p
  {
    if p < |t| {
      NamedAtSound(t, name, p);
      match NamedAt(t, name, p)
      case Some(b) =>
        NamedBlocksFromFound(t, name, End(b));
        AllNamedCons(t, name, b, NamedBlocksFrom(t, name, End(b)));
      case None =>
        NamedBlocksFromFound(t, name, p + 1);
    }
  }

  lemma {:induction false} NamedBlocksFromLeftmost(t: string, name: string, p: nat)
    ensures NamedLeftmost(t, name, p, NamedBlocksFrom(t, name, p))
    decreases |t| - p
  {
    var bs := NamedBlocksFrom(t, name, p);
    if |t| <= p {
      forall b | IsNamedAt(t, name, b) ensures b.start < p {
        AtSlice(t, b.start, AnchorOpen + name + AnchorClose);
      }
    } else {
      match NamedAt(t, name, p)
      case Some(b) =>
        NamedBlocksFromLeftmost(t, name, End(b));
        assert bs[1..] == NamedBlocksFrom(t, name, End(b));
      case None =>
        NamedBlocksFromLeftmost(t, name, p + 1);
        NamedLeftmostEarlier(t, name, p, bs);
    }
  }

  lemma AllNamedCons(t: string, name: string, b: Block, rest: seq<Block>)
    requires IsNamedAt(t, name, b) && Lazy(t, b) && AllNamed(t, name, rest)
    ensures AllNamed(t, name, [b] + rest)
  {
    var bs := [b] + rest;
    forall k | 1 <= k < |bs| ensures IsNamedAt(t, name, bs[k]) && Lazy(t, bs[k]) {
      assert bs[k] == rest[k - 1];
    }
  }

  lemma NamedLeftmostEarlier(t: string, name: string, p: nat, bs: seq<Block>)
    requires NamedAt(t, name, p).None? && NamedLeftmost(t, name, p + 1, bs)
    ensures NamedLeftmost(t, name, p, bs)
  {
    forall b | IsNamedAt(t, name, b) ensures b.start != p {
      if b.start == p {
        NamedAtPriority(t, name, b);
      }
    }
  }

  lemma {:induction false} NamedBlocksFromChosen(t: string, name: string, p: nat)
    ensures NamedChosen(t, name, NamedBlocksFrom(t, name, p))
    decreases |t| - p
  {
    if p < |t| {
      match NamedAt(t, name, p)
      case Some(b) =>
        NamedBlocksFromChosen(t, name, End(b));
        NamedChosenCons(t, name, b, NamedBlocksFrom(t, name, End(b)));
      case None =>
        NamedBlocksFromChosen(t, name, p + 1);
    }
  }

  lemma NamedChosenCons(t: string, name: string, b: Block, rest: seq<Block>)
    requires NamedAt(t, name, b.start) == Some(b) && NamedChosen(t, name, rest)
    ensures NamedChosen(t, name, [b] + rest)
  {
    var bs := [b] + rest;
    forall k | 1 <= k < |bs| ensures NamedAt(t, name, bs[k].start) == Some(bs[k]) {
      assert bs[k] == rest[k - 1];
    }
  }

  /** Each match for a given name has the preferred tail among the blocks with that name at its start. */
  lemma NamedBlocksPreferred(t: string, name: string, k: nat, b: Block)
    requires k < |NamedBlocks(t, name)| && IsNamedAt(t, name, b) && b.start == NamedBlocks(t, name)[k].start
    ensures TailPreferred(NamedBlocks(t, name)[k].tail, b.tail)
  {
    NamedBlocksFromChosen(t, name, 0);
    NamedAtPriority(t, name, b);
  }

  // The capture groups of a block.

  function Name(t: string, b: Block): string
    requires End(b) <= |t|
  {
    t[NameAt(b)..CloseAt(b)]
  }

  function Space(t: string, b: Block): string
    requires End(b) <= |t|
  {
    t[SpaceAt(b)..FenceAt(b)]
  }

  function Tag(t: string, b: Block): string
    requires End(b) <= |t|
  {
    t[TagAt(b)..BodyAt(b)]
  }

  /** The group `header`: everything before the body. */
  function Header(t: string, b: Block): string
    requires End(b) <= |t|
  {
    t[b.start..BodyAt(b)]
  }

  function Body(t: string, b: Block): string
    requires End(b) <= |t|
  {
    t[BodyAt(b)..EndFenceAt(b)]
  }

  /** The group `end`: the closing fence. */
  function Closing(t: string, b: Block): string
    requires End(b) <= |t|
  {
    t[EndFenceAt(b)..End(b)]
  }

  /** The header of a block standing in `t`, piece by piece, up to its tag. */
  lemma HeaderParts(t: string, b: Block, name: string)
    requires End(b) <= |t| && name == Name(t, b)
    requires At(t, b.start, AnchorOpen) && At(t, CloseAt(b), AnchorClose) && At(t, FenceAt(b), Fence)
    ensures Header(t, b) == AnchorOpen + name + AnchorClose + Space(t, b) + Fence + Tag(t, b)
  {
    var n, c, sp, f, tg, bd := NameAt(b), CloseAt(b), SpaceAt(b), FenceAt(b), TagAt(b), BodyAt(b);
    AtSlice(t, b.start, AnchorOpen);
    AtSlice(t, c, AnchorClose);
    AtSlice(t, f, Fence);
    assert t[f..bd] == Fence + Tag(t, b) by {
      SliceSplit(t, f, tg, bd);
    }
    assert t[c..bd] == AnchorClose + Space(t, b) + Fence + Tag(t, b) by {
      SliceSplit(t, c, sp, bd);
      SliceSplit(t, sp, f, bd);
    }
    assert Header(t, b) == AnchorOpen + name + t[c..bd] by {
      SliceSplit(t, b.start, n, bd);
      SliceSplit(t, n, c, bd);
    }
  }

  lemma SliceSplit(t: string, i: nat, j: nat, k: nat)
    requires i <= j <= k <= |t|
    ensures t[i..k] == t[i..j] + t[j..k]
  {
  }

  /** The tail of a block standing in `t`: white space, a tag of tag characters, a body, and a fence. */
  lemma TailParts(t: string, b: Block)
    requires End(b) <= |t| && TailIsAt(t, b)
    ensures Chars(Space(t, b), SpaceChar) && Chars(Tag(t, b), TagChar)
    ensures |Body(t, b)| > 0 && Closing(t, b) == Fence
  {
    SpanSlice(t, SpaceAt(b), b.tail.space, SpaceChar);
    SpanSlice(t, TagAt(b), b.tail.tag, TagChar);
    AtSlice(t, EndFenceAt(b), Fence);
  }

  /**
   * Every match of `exampleRegex('(.+?)')` in `t` reads
   * `<!---NAME-->SPACE```TAG` (the header), a body of at least one character,
   * and the closing fence: NAME is one non-empty line, SPACE white space and
   * TAG characters of `[A-z0-9]`; no fence starts inside the body after its
   * first character (the body is the shortest).
   */
  lemma BlockLayout(t: string, k: nat)
    requires k < |Blocks(t)|
    ensures var b := Blocks(t)[k];
      && End(b) <= |t|
      && Header(t, b) == AnchorOpen + Name(t, b) + AnchorClose + Space(t, b) + Fence + Tag(t, b)
      && |Name(t, b)| > 0 && Chars(Name(t, b), LineChar)
      && Chars(Space(t, b), SpaceChar) && Chars(Tag(t, b), TagChar)
      && |Body(t, b)| > 0 && Closing(t, b) == Fence && Lazy(t, b)
  {
    var bs := Blocks(t);
    BlocksFromLaid(t, 0);
    LaidInside(t, 0, bs);
    BlocksFromFound(t, 0);
    assert End(bs[k]) <= |t| && IsBlockAt(t, bs[k]) && Lazy(t, bs[k]);
    FoundLayout(t, bs[k]);
  }

  /** A block found standing in `t` reads `<!---NAME-->SPACE```TAG`, a body, and the closing fence. */
  lemma FoundLayout(t: string, b: Block)
    requires End(b) <= |t| && IsBlockAt(t, b)
    ensures Header(t, b) == AnchorOpen + Name(t, b) + AnchorClose + Space(t, b) + Fence + Tag(t, b)
    ensures |Name(t, b)| > 0 && Chars(Name(t, b), LineChar)
    ensures Chars(Space(t, b), SpaceChar) && Chars(Tag(t, b), TagChar)
    ensures |Body(t, b)| > 0 && Closing(t, b) == Fence
  {
    HeaderParts(t, b, Name(t, b));
    TailParts(t, b);
    SpanSlice(t, NameAt(b), b.name, LineChar);
  }

  /** Every match of `exampleRegex(name)` in `t` reads `<!---NAME-->SPACE```TAG`, a body, and the closing fence. */
  lemma NamedLayout(t: string, name: string, k: nat)
    requires k < |NamedBlocks(t, name)|
    ensures var b := NamedBlocks(t, name)[k];
      && End(b) <= |t| && Name(t, b) == name
      && Header(t, b) == AnchorOpen + name + AnchorClose + Space(t, b) + Fence + Tag(t, b)
      && Chars(Space(t, b), SpaceChar) && Chars(Tag(t, b), TagChar)
      && |Body(t, b)| > 0 && Closing(t, b) == Fence && Lazy(t, b)
  {
    var b := NamedBlocks(t, name)[k];
    NamedBlocksFromLaid(t, name, 0);
    LaidInside(t, 0, NamedBlocks(t, name));
    NamedBlocksFromFound(t, name, 0);
    NamedName(t, name, b);
    HeaderParts(t, b, name);
    TailParts(t, b);
  }

  lemma NamedName(t: string, name: string, b: Block)
    requires End(b) <= |t| && IsNamedAt(t, name, b)
    ensures Name(t, b) == name && At(t, b.start, AnchorOpen) && At(t, CloseAt(b), AnchorClose)
  {
    var whole := AnchorOpen + name + AnchorClose;
    var n, c := NameAt(b), CloseAt(b);
    assert n == b.start + |AnchorOpen| && c == n + |name| && SpaceAt(b) == c + |AnchorClose|;
    AtSlice(t, b.start, whole);
    var w := t[b.start..SpaceAt(b)];
    assert w == whole;
    assert t[n..c] == name by {
      assert t[n..c] == w[|AnchorOpen|..|AnchorOpen| + |name|];
      assert whole[|AnchorOpen|..|AnchorOpen| + |name|] == name;
    }
    assert t[b.start..n] == AnchorOpen by {
      assert t[b.start..n] == w[..|AnchorOpen|];
      assert whole[..|AnchorOpen|] == AnchorOpen;
    }
    assert t[c..SpaceAt(b)] == AnchorClose by {
      assert t[c..SpaceAt(b)] == w[|AnchorOpen| + |name|..];
      assert whole[|AnchorOpen| + |name|..] == AnchorClose;
    }
    AtSlice(t, b.start, AnchorOpen);
    AtSlice(t, CloseAt(b), AnchorClose);
  }

  // Rewriting the bodies.

  /**
   * `t` from `p` on with the body of each block of `bs` replaced by the
   * string of `bodies` at the same index; everything else is kept as it is.
   */
  function Splice(t: string, p: nat, bs: seq<Block>, bodies: seq<string>): string
    requires Laid(t, p, bs) && |bodies| == |bs|
    decreases |bs|
  {
    if bs == [] then t[p..]
    else t[p..BodyAt(bs[0])] + bodies[0] + t[EndFenceAt(bs[0])..End(bs[0])] + Splice(t, End(bs[0]), bs[1..], bodies[1..])
  }

  /** The bodies of the blocks, in order. */
  function Bodies(t: string, bs: seq<Block>): seq<string>
    requires Inside(t, bs)
  {
    seq(|bs|, k requires 0 <= k < |bs| => Body(t, bs[k]))
  }

  /** Putting back its own bodies gives the text back: the blocks and the text between them partition it. */
  lemma {:induction false} SpliceOwnBodies(t: string, p: nat, bs: seq<Block>)
    requires Laid(t, p, bs)
    ensures Inside(t, bs) && Splice(t, p, bs, Bodies(t, bs)) == t[p..]
    decreases |bs|
  {
    LaidInside(t, p, bs);
    if bs != [] {
      var b := bs[0];
      SpliceOwnBodies(t, End(b), bs[1..]);
      assert Bodies(t, bs)[1..] == Bodies(t, bs[1..]);
      assert t[p..] == t[p..BodyAt(b)] + t[BodyAt(b)..EndFenceAt(b)] + t[EndFenceAt(b)..End(b)] + t[End(b)..];
    }
  }

  /** The body `replaceExamples` gives a block named `name`: a newline, the blocks joined by newlines, a newline. */
  function NewBody(examples: ExampleMap, name: string): string
  {
    "\n" + Join(Get(examples, name), "\n") + "\n"
  }

  function NewBodies(t: string, bs: seq<Block>, examples: ExampleMap): seq<string>
    requires Inside(t, bs)
  {
    seq(|bs|, k requires 0 <= k < |bs| => NewBody(examples, Name(t, bs[k])))
  }

  /** The callback of `replaceExamples`: `[header, examples.get(name).join('\n'), end].join('\n')`. */
  function Replacement(t: string, b: Block, examples: ExampleMap): string
    requires End(b) <= |t|
  {
    Join([Header(t, b), Join(Get(examples, Name(t, b)), "\n"), Closing(t, b)], "\n")
  }

  /** `replaceAll` from `p` on: the text before each match, then the callback's result for it. */
  function RewriteFrom(t: string, p: nat, bs: seq<Block>, examples: ExampleMap): string
    requires Laid(t, p, bs)
    decreases |bs|
  {
    if bs == [] then t[p..]
    else t[p..bs[0].start] + Replacement(t, bs[0], examples) + RewriteFrom(t, End(bs[0]), bs[1..], examples)
  }

  /** `file.contents.replaceAll(exampleRegex('(.+?)'), …)` of `replaceExamples`, on one file's contents. */
  function ReplaceExamplesText(t: string, examples: ExampleMap): string
  {
    BlocksFromLaid(t, 0);
    RewriteFrom(t, 0, Blocks(t), examples)
  }

  lemma {:induction false} RewriteIsSplice(t: string, p: nat, bs: seq<Block>, examples: ExampleMap)
    requires Laid(t, p, bs)
    ensures Inside(t, bs) && RewriteFrom(t, p, bs, examples) == Splice(t, p, bs, NewBodies(t, bs, examples))
    decreases |bs|
  {
    LaidInside(t, p, bs);
    if bs != [] {
      var b := bs[0];
      RewriteIsSplice(t, End(b), bs[1..], examples);
      assert NewBodies(t, bs, examples)[1..] == NewBodies(t, bs[1..], examples);
      ReplacementParts(t, p, b, examples);
    }
  }

  lemma ReplacementParts(t: string, p: nat, b: Block, examples: ExampleMap)
    requires p <= b.start && End(b) <= |t|
    ensures t[p..b.start] + Replacement(t, b, examples)
         == t[p..BodyAt(b)] + NewBody(examples, Name(t, b)) + t[EndFenceAt(b)..End(b)]
  {
    var j := Join(Get(examples, Name(t, b)), "\n");
    var c := Closing(t, b);
    assert [Header(t, b), j, c][1..] == [j, c];
    assert [j, c][1..] == [c];
    assert Join([c], "\n") == c;
    assert Join([j, c], "\n") == j + "\n" + c;
    assert Replacement(t, b, examples) == Header(t, b) + "\n" + Join([j, c], "\n");
    assert t[p..b.start] + Header(t, b) == t[p..BodyAt(b)];
  }

  /**
   * `replaceExamples` on one file changes only the bodies of the matched
   * blocks: the text between blocks, each header (anchor, white space,
   * opening fence, tag) and each closing fence are kept, and the body of a
   * block named NAME becomes a newline, NAME's collected blocks joined by
   * newlines, and a newline, so `"\n\n"` when none was collected. The
   * original text is the same splice with the blocks' own bodies.
   */
  lemma ReplaceExamplesBodies(t: string, examples: ExampleMap)
    ensures var bs := Blocks(t);
      && Laid(t, 0, bs) && Inside(t, bs)
      && ReplaceExamplesText(t, examples) == Splice(t, 0, bs, NewBodies(t, bs, examples))
      && t == Splice(t, 0, bs, Bodies(t, bs))
      && forall k :: 0 <= k < |bs| ==>
           NewBodies(t, bs, examples)[k] == "\n" + Join(Get(examples, Name(t, bs[k])), "\n") + "\n"
           && (Name(t, bs[k]) !in examples ==> NewBodies(t, bs, examples)[k] == "\n\n")
  {
    var bs := Blocks(t);
    BlocksFromLaid(t, 0);
    RewriteIsSplice(t, 0, bs, examples);
    SpliceOwnBodies(t, 0, bs);
    NewBodiesEmpty(t, bs, examples);
  }

  lemma NewBodiesEmpty(t: string, bs: seq<Block>, examples: ExampleMap)
    requires Inside(t, bs)
    ensures forall k :: 0 <= k < |bs| && Name(t, bs[k]) !in examples ==> NewBodies(t, bs, examples)[k] == "\n\n"
  {
  }
}
