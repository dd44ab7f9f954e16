/**
 Rendering of a learner's mistakes over the reference answer. Each reference
 character becomes at most one coloured token: a character the correction
 mask flags as right is shown in green, any other character in red. A wrong
 space is dropped at either end of the reference, shown as a red `_` when
 both of its neighbours are right (so that two words the learner glued
 together stand out), and as a red space otherwise.
 */
module Diff {

  /** Terminal colours: `Plain` is the terminal's reset colour. */
  datatype Colour = Plain | Green | Red

  datatype Token = Token(colour: Colour, ch: char)

  /** The characters of a token sequence, colours removed. */
  function Text(tokens: seq<Token>): (s: string)
    ensures |s| == |tokens|
    ensures forall i :: 0 <= i < |s| ==> s[i] == tokens[i].ch
  {
    seq(|tokens|, i requires 0 <= i < |tokens| => tokens[i].ch)
  }

  /** Position `i` holds a wrong space at the first or last position of the reference. */
  predicate DroppedAt(correction: seq<bool>, reference: string, i: int)
    requires 0 <= i < |reference| <= |correction|
  {
    !correction[i] && reference[i] == ' ' && (i == 0 || i == |reference| - 1)
  }

  /** The tokens printed for reference position `i`. The mask must cover the
      whole reference; the neighbours of a wrong space are consulted only
      when the space is interior. */
  function Emit(correction: seq<bool>, reference: string, i: int): (t: seq<Token>)
    requires 0 <= i < |reference| <= |correction|
    ensures |t| <= 1
    ensures |t| == 0 <==> DroppedAt(correction, reference, i)
    ensures |t| == 1 ==> (t[0].colour == Green <==> correction[i]) && t[0].colour != Plain
    ensures |t| == 1 && t[0].ch != reference[i] ==> t[0].ch == '_' && reference[i] == ' '
  {
    if correction[i] then
      [Token(Green, reference[i])]
    else if reference[i] == ' ' then
      if i >= 1 && i + 1 < |reference| then
        if correction[i - 1] && correction[i + 1] then [Token(Red, '_')] else [Token(Red, ' ')]
      else
        []
    else
      [Token(Red, reference[i])]
  }

  /** The number of dropped positions below `n`. */
  function DroppedBefore(correction: seq<bool>, reference: string, n: int): (d: nat)
    requires 0 <= n <= |reference| <= |correction|
    ensures d <= n
  {
    if n == 0 then 0
    else DroppedBefore(correction, reference, n - 1) + (if DroppedAt(correction, reference, n - 1) then 1 else 0)
  }

  /** The tokens printed for the first `n` reference positions. */
  function RenderUpTo(correction: seq<bool>, reference: string, n: int): (t: seq<Token>)
    requires 0 <= n <= |reference| <= |correction|
    ensures |t| == n - DroppedBefore(correction, reference, n)
    ensures forall j :: 0 <= j < |t| ==> t[j].colour != Plain
  {
    if n == 0 then []
    else RenderUpTo(correction, reference, n - 1) + Emit(correction, reference, n - 1)
  }

  /** The whole diff, as `_print_colored_diff` prints it. */
  function Render(correction: seq<bool>, reference: string): seq<Token>
    requires |reference| <= |correction|
  {
    RenderUpTo(correction, reference, |reference|)
  }

  /** The source's loop over the reference, one position at a time. */
  method PrintColoredDiff(correction: seq<bool>, reference: string) returns (tokens: seq<Token>)
    requires |reference| <= |correction|
    ensures tokens == Render(correction, reference)
  {
    tokens := [];
    for i := 0 to |reference|
      invariant tokens == RenderUpTo(correction, reference, i)
    {
      if correction[i] {
        tokens := tokens + [Token(Green, reference[i])];
      } else if reference[i] == ' ' {
        if i >= 1 && i + 1 < |reference| {
          if correction[i - 1] && correction[i + 1] {
            tokens := tokens + [Token(Red, '_')];
          } else {
            tokens := tokens + [Token(Red, ' ')];
          }
        }
      } else {
        tokens := tokens + [Token(Red, reference[i])];
      }
    }
  }

  /** A position that is not dropped prints its token at its own index less
      the number of positions dropped before it. */
  lemma {:induction false} TokenOfPosition(correction: seq<bool>, reference: string, n: int, i: int)
    requires 0 <= i < n <= |reference| <= |correction|
    requires !DroppedAt(correction, reference, i)
    ensures i - DroppedBefore(correction, reference, i) < |RenderUpTo(correction, reference, n)|
    ensures RenderUpTo(correction, reference, n)[i - DroppedBefore(correction, reference, i)]
            == Emit(correction, reference, i)[0]
  {
    if i < n - 1 {
      TokenOfPosition(correction, reference, n - 1, i);
    }
  }

  /** Whether the first reference position is a dropped wrong space. */
  function Lead(correction: seq<bool>, reference: string): (d: nat)
    requires |reference| <= |correction|
    ensures d <= 1
    ensures d == 1 <==> |reference| > 0 && DroppedAt(correction, reference, 0)
  {
    if |reference| > 0 && DroppedAt(correction, reference, 0) then 1 else 0
  }

  /** Only the first and last positions can be dropped. */
  lemma {:induction false} DroppedBeforeIsLead(correction: seq<bool>, reference: string, n: int)
    requires 1 <= n < |reference| <= |correction|
    ensures DroppedBefore(correction, reference, n) == Lead(correction, reference)
  {
    if n > 1 {
      DroppedBeforeIsLead(correction, reference, n - 1);
    }
  }

  /** The number of wrong spaces at the ends of the reference (each end counted once). */
  function BoundaryDrops(correction: seq<bool>, reference: string): (d: nat)
    requires |reference| <= |correction|
    ensures d <= 2 && d <= |reference|
  {
    if |reference| == 0 then 0
    else if |reference| == 1 then Lead(correction, reference)
    else Lead(correction, reference) + (if DroppedAt(correction, reference, |reference| - 1) then 1 else 0)
  }

  /** One token per reference character, except the wrong spaces at the ends. */
  lemma TokenCount(correction: seq<bool>, reference: string)
    requires |reference| <= |correction|
    ensures |Render(correction, reference)| == |reference| - BoundaryDrops(correction, reference)
  {
    if |reference| >= 2 {
      DroppedBeforeIsLead(correction, reference, |reference| - 1);
    }
  }

  /** The token printed for one reference position, read off the whole diff. */
  lemma PositionToken(correction: seq<bool>, reference: string, i: int)
    requires 0 <= i < |reference| <= |correction|
    ensures !DroppedAt(correction, reference, i) ==>
              i - Lead(correction, reference) < |Render(correction, reference)|
    ensures correction[i] ==>
              Render(correction, reference)[i - Lead(correction, reference)] == Token(Green, reference[i])
    ensures !correction[i] && reference[i] != ' ' ==>
              Render(correction, reference)[i - Lead(correction, reference)] == Token(Red, reference[i])
    ensures 0 < i < |reference| - 1 && !correction[i] && reference[i] == ' ' ==>
              Render(correction, reference)[i - Lead(correction, reference)]
              == Token(Red, if correction[i - 1] && correction[i + 1] then '_' else ' ')
  {
    if !DroppedAt(correction, reference, i) {
      TokenOfPosition(correction, reference, |reference|, i);
      if i >= 1 {
        DroppedBeforeIsLead(correction, reference, i);
      }
    }
  }

  /** The token printed for each reference position: right characters in
      green, wrong non-space characters in red, wrong interior spaces as a
      red `_` between two right neighbours and a red space otherwise. */
  lemma RenderedPositions(correction: seq<bool>, reference: string)
    requires |reference| <= |correction|
    ensures forall i :: 0 <= i < |reference| && !DroppedAt(correction, reference, i) ==>
              i - Lead(correction, reference) < |Render(correction, reference)|
    ensures forall i :: 0 <= i < |reference| && correction[i] ==>
              Render(correction, reference)[i - Lead(correction, reference)] == Token(Green, reference[i])
    ensures forall i :: 0 <= i < |reference| && !correction[i] && reference[i] != ' ' ==>
              Render(correction, reference)[i - Lead(correction, reference)] == Token(Red, reference[i])
    ensures forall i :: 0 < i < |reference| - 1 && !correction[i] && reference[i] == ' ' ==>
              Render(correction, reference)[i - Lead(correction, reference)]
              == Token(Red, if correction[i - 1] && correction[i + 1] then '_' else ' ')
  {
    forall i | 0 <= i < |reference| {
      PositionToken(correction, reference, i);
    }
  }

  /** With every position flagged right, the diff is the reference itself, all green. */
  lemma AllCorrectEchoesReference(correction: seq<bool>, reference: string)
    requires |reference| <= |correction|
    requires forall i :: 0 <= i < |reference| ==> correction[i]
    ensures Text(Render(correction, reference)) == reference
    ensures forall j :: 0 <= j < |Render(correction, reference)| ==> Render(correction, reference)[j].colour == Green
  {
    TokenCount(correction, reference);
    var t := Render(correction, reference);
    assert |t| == |reference|;
    forall j | 0 <= j < |t| ensures t[j] == Token(Green, reference[j]) {
      PositionToken(correction, reference, j);
    }
  }
}
