/**
 * Styles, styled blocks and the "display once" output of a highlighter
 * (the first half of src/highlight.rs).
 *
 * A `Style` is kept abstract as the pair of texts it renders before and
 * after a span. An `Output` is what a highlighting call returns: either a
 * single already-decorated text (any `Display` value) or a sequence of
 * styled blocks (`StyledBlocks`). Rendering writes into a sink, which is
 * modelled as the returned string.
 */
module Styled {

  /** A style: the text that starts it and the text that ends it. */
  datatype Style = Style(start: string, end: string)

  /** The unit style `()`: both tokens are empty. */
  const Unit: Style := Style("", "")

  /** A styled block, the pair `(style, text)`. */
  datatype Block = Block(style: Style, text: string)

  /** A value consumed once to display: a plain text or styled blocks. */
  datatype Output = Plain(text: string) | Blocks(blocks: seq<Block>)

  /** What rendering one block writes: start token, text, end token. */
  function BlockRendering(b: Block): string
  {
    b.style.start + b.text + b.style.end
  }

  /** What rendering a sequence of blocks writes, block after block. */
  function RenderBlocks(bs: seq<Block>): string
  {
    if bs == [] then "" else RenderBlocks(bs[..|bs| - 1]) + BlockRendering(bs[|bs| - 1])
  }

  /** The texts of the blocks, concatenated without any style token. */
  function Texts(bs: seq<Block>): string
  {
    if bs == [] then "" else bs[0].text + Texts(bs[1..])
  }

  /** Every block of `bs` carries the unit style. */
  predicate AllUnit(bs: seq<Block>)
  {
    forall i :: 0 <= i < |bs| ==> bs[i].style == Unit
  }

  /** The text an output writes to its sink. */
  function Rendered(o: Output): string
  {
    match o
    case Plain(s) => s
    case Blocks(bs) => RenderBlocks(bs)
  }

  /** Rendering a concatenation of block sequences concatenates the renderings. */
  lemma {:induction false} RenderBlocksAppend(a: seq<Block>, b: seq<Block>)
    ensures RenderBlocks(a + b) == RenderBlocks(a) + RenderBlocks(b)
    decreases |b|
  {
    if b == [] {
      assert a + b == a;
    } else {
      assert (a + b)[..|a + b| - 1] == a + b[..|b| - 1];
      RenderBlocksAppend(a, b[..|b| - 1]);
    }
  }

  /**
   * Rendering blocks writes, for every block in order, its start token, its
   * text and its end token: rendering the blocks one by one from the front
   * gives the same text.
   */
  lemma {:induction false} RenderBlocksFront(bs: seq<Block>)
    requires bs != []
    ensures RenderBlocks(bs) == BlockRendering(bs[0]) + RenderBlocks(bs[1..])
  {
    assert bs == [bs[0]] + bs[1..];
    RenderBlocksAppend([bs[0]], bs[1..]);
    assert [bs[0]][..0] == [];
  }

  /** With the unit style everywhere, rendering writes just the texts. */
  lemma {:induction false} RenderUnitBlocks(bs: seq<Block>)
    requires AllUnit(bs)
    ensures RenderBlocks(bs) == Texts(bs)
  {
    if bs != [] {
      RenderBlocksFront(bs);
      assert AllUnit(bs[1..]) by {
        forall i | 0 <= i < |bs[1..]| ensures bs[1..][i].style == Unit {
          assert bs[1..][i] == bs[i + 1];
        }
      }
      RenderUnitBlocks(bs[1..]);
    }
  }

  /**
   * `DisplayOnce::fmt`: a plain value is written as it is; styled blocks are
   * written block by block, each as start token, text, end token.
   */
  method Fmt(o: Output) returns (sink: string)
    ensures sink == Rendered(o)
    ensures o.Blocks? && AllUnit(o.blocks) ==> sink == Texts(o.blocks)
  {
    match o {
      case Plain(s) =>
        sink := s;
      case Blocks(bs) =>
        sink := "";
        var i := 0;
        while i < |bs|
          invariant 0 <= i <= |bs|
          invariant sink == RenderBlocks(bs[..i])
        {
          var block := bs[i];
          sink := sink + block.style.start + block.text + block.style.end;
          assert bs[..i + 1][..i] == bs[..i];
          i := i + 1;
        }
        assert bs[..i] == bs;
        if AllUnit(bs) {
          RenderUnitBlocks(bs);
        }
    }
  }
}
