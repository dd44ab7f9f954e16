/**
 One quiz round after the learner has answered: the similarity score of the
 best-matching translation picks one of four feedback tiers, and the screen
 shows either a plain "Correct!", the headline and the coloured diff, or the
 whole right answer. The score, the best translation and the correction mask
 come from the similarity engine and are parameters here; so are the three
 tier thresholds.
 */
module Session {
  import opened Diff

  datatype Tier = Excellent | Good | Mediocre | Wrong

  /** The three tier thresholds; no ordering between them is assumed. */
  datatype Levels = Levels(excellent: real, good: real, mediocre: real)

  /** The feedback tier: the first of excellent, good, mediocre whose
      threshold the score reaches, and Wrong when it reaches none. */
  function Classify(score: real, levels: Levels): (tier: Tier)
    ensures tier == Excellent <==> score >= levels.excellent
    ensures tier == Good <==> score < levels.excellent && score >= levels.good
    ensures tier == Mediocre <==> score < levels.excellent && score < levels.good && score >= levels.mediocre
    ensures tier == Wrong <==> score < levels.excellent && score < levels.good && score < levels.mediocre
  {
    if score >= levels.excellent then Excellent
    else if score >= levels.good then Good
    else if score >= levels.mediocre then Mediocre
    else Wrong
  }

  /** The tiers whose screen shows the diff. */
  predicate ShowsDiff(tier: Tier) {
    tier == Good || tier == Mediocre
  }

  /** `text` printed in one colour. */
  function Paint(colour: Colour, text: string): (t: seq<Token>)
    ensures |t| == |text|
    ensures forall i :: 0 <= i < |t| ==> t[i] == Token(colour, text[i])
  {
    seq(|text|, i requires 0 <= i < |text| => Token(colour, text[i]))
  }

  lemma TextOfPaint(colour: Colour, text: string)
    ensures Text(Paint(colour, text)) == text
  {
  }

  lemma TextAppend(a: seq<Token>, b: seq<Token>)
    ensures Text(a + b) == Text(a) + Text(b)
  {
  }

  /** The headlines printed above the diff in the Good and Mediocre tiers. */
  const GoodHeadline := "Almost correct. Right answer is: "
  const MediocreHeadline := "Not bad. Right answer is: "

  /** What one round returns to its caller, with what it put on the screen
      (line breaks left out). */
  datatype Round = Round(score: real, best: string, tier: Tier, screen: seq<Token>)

  /** `user_session` once the answer has been scored. The mask has to cover
      the best translation only when the diff is shown. */
  function UserSession(score: real, best: string, mask: seq<bool>, levels: Levels): (r: Round)
    requires ShowsDiff(Classify(score, levels)) ==> |best| <= |mask|
    ensures r.score == score && r.best == best
    ensures r.tier == Classify(score, levels)
    ensures forall j :: 0 <= j < |r.screen| && r.screen[j].colour == Red ==> r.tier != Excellent
  {
    var tier := Classify(score, levels);
    var screen :=
      match tier
      case Excellent => Paint(Green, "Correct!")
      case Good => Paint(Plain, GoodHeadline) + Render(mask, best)
      case Mediocre => Paint(Plain, MediocreHeadline) + Render(mask, best)
      case Wrong => Paint(Red, "Wrong. ") + Paint(Plain, "Right answer is: ") + Paint(Green, best);
    Round(score, best, tier, screen)
  }

  /** Tiers from worst to best. */
  function Rank(tier: Tier): nat {
    match tier
    case Wrong => 0
    case Mediocre => 1
    case Good => 2
    case Excellent => 3
  }

  /** A higher score never gets a worse tier, whatever the thresholds. */
  lemma ClassifyMonotone(s1: real, s2: real, levels: Levels)
    requires s1 <= s2
    ensures Rank(Classify(s1, levels)) <= Rank(Classify(s2, levels))
  {
  }

  /** With a good threshold at or above the excellent one no score is rated
      Good; with a mediocre threshold at or above the good one no score is
      rated Mediocre. */
  lemma ShadowedTiers(score: real, levels: Levels)
    ensures levels.good >= levels.excellent ==> Classify(score, levels) != Good
    ensures levels.mediocre >= levels.good ==> Classify(score, levels) != Mediocre
  {
  }

  /** The Excellent screen shows nothing of the answer or the mask. */
  lemma ExcellentIgnoresAnswer(score: real, best1: string, mask1: seq<bool>,
                               best2: string, mask2: seq<bool>, levels: Levels)
    requires Classify(score, levels) == Excellent
    ensures UserSession(score, best1, mask1, levels).screen == UserSession(score, best2, mask2, levels).screen
    ensures Text(UserSession(score, best1, mask1, levels).screen) == "Correct!"
  {
  }

  /** The Wrong screen ignores the mask and ends with the whole best translation in green. */
  lemma WrongShowsWholeAnswer(score: real, best: string, mask1: seq<bool>, mask2: seq<bool>, levels: Levels)
    requires Classify(score, levels) == Wrong
    ensures UserSession(score, best, mask1, levels).screen == UserSession(score, best, mask2, levels).screen
    ensures Text(UserSession(score, best, mask1, levels).screen) == "Wrong. Right answer is: " + best
  {
    var red, plain, green := Paint(Red, "Wrong. "), Paint(Plain, "Right answer is: "), Paint(Green, best);
    TextOfPaint(Red, "Wrong. ");
    TextOfPaint(Plain, "Right answer is: ");
    TextOfPaint(Green, best);
    TextAppend(red, plain);
    TextAppend(red + plain, green);
    assert "Wrong. " + "Right answer is: " == "Wrong. Right answer is: ";
  }

  /** In the Good and Mediocre tiers the screen is the tier's headline in
      the plain colour followed by the diff of the best translation: one
      coloured token per character, bar wrong spaces at its ends, and a
      right answer comes out verbatim. */
  lemma DiffTiersShowDiff(score: real, best: string, mask: seq<bool>, levels: Levels)
    requires ShowsDiff(Classify(score, levels)) && |best| <= |mask|
    ensures var r := UserSession(score, best, mask, levels);
            var head := if r.tier == Good then GoodHeadline else MediocreHeadline;
            && |head| <= |r.screen|
            && Text(r.screen[..|head|]) == head
            && (forall j :: 0 <= j < |head| ==> r.screen[j].colour == Plain)
            && r.screen[|head|..] == Render(mask, best)
            && |r.screen| == |head| + |best| - BoundaryDrops(mask, best)
            && (forall j :: |head| <= j < |r.screen| ==> r.screen[j].colour != Plain)
            && ((forall i :: 0 <= i < |best| ==> mask[i]) ==> Text(r.screen[|head|..]) == best)
  {
    var r := UserSession(score, best, mask, levels);
    var head := if r.tier == Good then GoodHeadline else MediocreHeadline;
    TokenCount(mask, best);
    assert r.screen == Paint(Plain, head) + Render(mask, best);
    assert r.screen[..|head|] == Paint(Plain, head);
    TextOfPaint(Plain, head);
    assert r.screen[|head|..] == Render(mask, best);
    if forall i :: 0 <= i < |best| ==> mask[i] {
      AllCorrectEchoesReference(mask, best);
    }
  }
}
