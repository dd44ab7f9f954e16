/**
 The phrase-file reader: each line of the form `source || target` binds one
 or more source phrases to a translation. `|` inside the target lists
 alternative translations; `|` inside the source lists alternative source
 phrases that all receive the same translation. Lines starting with `#`
 and lines without `||` are ignored; lines with more than one `||` are
 reported and skipped. Later lines overwrite earlier bindings.
 */
module Phrases {
  import opened PyStr

  /** A stored translation: one phrase, or an ordered list of alternatives. */
  datatype Translation = Single(text: string) | Multi(alternatives: seq<string>)

  /** What one line of the file contributes. */
  datatype LineOutcome =
    | Ignored                                      // comment, or no `||`
    | Rejected(parts: nat)                         // more than one `||`
    | Bound(keys: seq<string>, value: Translation)

  /** The report printed for a rejected line: the line and its part count. */
  datatype LineError = LineError(line: string, parts: nat)

  const PairSeparator: string := "||"
  const AlternativeSeparator: string := "|"

  /** Lines read from a file are never empty (each carries at least its newline). */
  predicate FileLines(lines: seq<string>) {
    forall i :: 0 <= i < |lines| ==> |lines[i]| > 0
  }

  /** The line is a phrase record: not a comment, and it contains `||`. */
  predicate IsRecord(line: string) {
    |line| > 0 && line[0] != '#' && Contains(line, PairSeparator)
  }

  /** A stored phrase: no surrounding whitespace and no `|` inside. */
  predicate CleanText(s: string) {
    IsStripped(s) && !Contains(s, AlternativeSeparator)
  }

  predicate CleanTranslation(t: Translation) {
    match t
    case Single(text) => CleanText(text)
    case Multi(alts) => |alts| >= 2 && forall i :: 0 <= i < |alts| ==> CleanText(alts[i])
  }

  /** Every key and every stored string of the mapping is clean. */
  predicate CleanMapping(m: map<string, Translation>) {
    forall k :: k in m ==> CleanText(k) && CleanTranslation(m[k])
  }

  /** The stripped alternatives of a `|`-separated list. */
  function Alternatives(s: string): (alts: seq<string>)
    ensures |alts| == |Split(s, AlternativeSeparator)|
    ensures forall i :: 0 <= i < |alts| ==> CleanText(alts[i])
  {
    var alts := StripAll(Split(s, AlternativeSeparator));
    assert forall i :: 0 <= i < |alts| ==> CleanText(alts[i]) by {
      forall i | 0 <= i < |alts| ensures CleanText(alts[i]) {
        StripAvoids(Split(s, AlternativeSeparator)[i], AlternativeSeparator);
      }
    }
    alts
  }

  /** The translation stored for a stripped target part. */
  function TargetValue(target: string): (v: Translation)
    requires IsStripped(target)
    ensures CleanTranslation(v)
    ensures Contains(target, AlternativeSeparator) <==> v.Multi?
    ensures v.Multi? ==> v.alternatives == StripAll(Split(target, AlternativeSeparator))
    ensures v.Single? ==> v.text == target
  {
    if Contains(target, AlternativeSeparator) then Multi(Alternatives(target)) else Single(target)
  }

  /** The keys bound by a stripped source part. */
  function SourceKeys(source: string): (keys: seq<string>)
    requires IsStripped(source)
    ensures |keys| >= 1
    ensures forall i :: 0 <= i < |keys| ==> CleanText(keys[i])
    ensures Contains(source, AlternativeSeparator) ==> keys == StripAll(Split(source, AlternativeSeparator))
    ensures !Contains(source, AlternativeSeparator) ==> keys == [source]
  {
    if Contains(source, AlternativeSeparator) then Alternatives(source) else [source]
  }

  /** One iteration of the reader's loop. */
  function ParseLine(line: string): (o: LineOutcome)
    requires |line| > 0
    ensures o.Ignored? <==> !IsRecord(line)
    ensures o.Rejected? <==> IsRecord(line) && |Split(line, PairSeparator)| > 2
    ensures o.Rejected? ==> o.parts == |Split(line, PairSeparator)|
    ensures o.Bound? ==>
              && |Split(line, PairSeparator)| == 2
              && o.keys == SourceKeys(Strip(Split(line, PairSeparator)[0]))
              && o.value == TargetValue(Strip(Split(line, PairSeparator)[1]))
    ensures o.Bound? ==>
              && |o.keys| >= 1
              && CleanTranslation(o.value)
              && forall i :: 0 <= i < |o.keys| ==> CleanText(o.keys[i])
  {
    if !IsRecord(line) then
      Ignored
    else
      var pair := StripAll(Split(line, PairSeparator));
      if |pair| > 2 then Rejected(|pair|)
      else Bound(SourceKeys(pair[0]), TargetValue(pair[1]))
  }

  /** Binds `keys` to `value` one after the other, as the source's inner loop does. */
  function BindAll(m: map<string, Translation>, keys: seq<string>, value: Translation)
    : (m': map<string, Translation>)
    ensures forall k :: k in m' <==> k in m || k in keys
    ensures forall k :: k in keys ==> m'[k] == value
    ensures forall k :: k in m && k !in keys ==> m'[k] == m[k]
  {
    if |keys| == 0 then m
    else BindAll(m, keys[..|keys| - 1], value)[keys[|keys| - 1] := value]
  }

  /** The effect of one line on the mapping. */
  function Apply(m: map<string, Translation>, o: LineOutcome): map<string, Translation>
  {
    match o
    case Bound(keys, value) => BindAll(m, keys, value)
    case _ => m
  }

  /** The outcome of a line keeps to the clean-text invariant. */
  predicate CleanOutcome(o: LineOutcome) {
    o.Bound? ==> CleanTranslation(o.value) && forall i :: 0 <= i < |o.keys| ==> CleanText(o.keys[i])
  }

  /** The line outcomes, in file order. */
  function Outcomes(lines: seq<string>): (os: seq<LineOutcome>)
    requires FileLines(lines)
    ensures |os| == |lines|
    ensures forall i :: 0 <= i < |lines| ==> os[i] == ParseLine(lines[i]) && CleanOutcome(os[i])
  {
    seq(|lines|, i requires 0 <= i < |lines| => ParseLine(lines[i]))
  }

  /** Applies the outcomes in order, starting from the empty mapping. */
  function Fold(os: seq<LineOutcome>): (m: map<string, Translation>)
    ensures (forall i :: 0 <= i < |os| ==> CleanOutcome(os[i])) ==> CleanMapping(m)
  {
    if |os| == 0 then map[] else Apply(Fold(os[..|os| - 1]), os[|os| - 1])
  }

  /** The mapping `read_phrases` returns for the lines of a file. */
  function ReadPhrases(lines: seq<string>): (m: map<string, Translation>)
    requires FileLines(lines)
    ensures CleanMapping(m)
    ensures |lines| == 0 ==> m == map[]
  {
    Fold(Outcomes(lines))
  }

  /** Reading a further line appends its outcome. */
  lemma OutcomesAppend(lines: seq<string>, line: string)
    requires FileLines(lines) && |line| > 0
    ensures FileLines(lines + [line])
    ensures Outcomes(lines + [line]) == Outcomes(lines) + [ParseLine(line)]
  {
  }

  /** The positions of the rejected outcomes: in increasing order, each one
      a rejection, and every rejection among them. */
  function RejectedAt(os: seq<LineOutcome>): (idx: seq<nat>)
    ensures |idx| <= |os|
    ensures forall j :: 0 <= j < |idx| ==> idx[j] < |os| && os[idx[j]].Rejected?
    ensures forall j, j' :: 0 <= j < j' < |idx| ==> idx[j] < idx[j']
    ensures forall i :: 0 <= i < |os| && os[i].Rejected? ==> i in idx
  {
    if |os| == 0 then []
    else
      var n := |os| - 1;
      var earlier := RejectedAt(os[..n]);
      if os[n].Rejected? then earlier + [n] else earlier
  }

  /** One report per rejected outcome, in order, naming the line it came from. */
  function Reports(lines: seq<string>, os: seq<LineOutcome>): seq<LineError>
    requires |lines| == |os|
  {
    if |os| == 0 then []
    else
      var n := |os| - 1;
      Reports(lines[..n], os[..n]) + (if os[n].Rejected? then [LineError(lines[n], os[n].parts)] else [])
  }

  /** The reports are the rejected positions, in order, each with its line
      and part count. */
  lemma {:induction false} ReportsFilter(lines: seq<string>, os: seq<LineOutcome>)
    requires |lines| == |os|
    ensures var idx := RejectedAt(os);
            && |Reports(lines, os)| == |idx|
            && forall j :: 0 <= j < |idx| ==> Reports(lines, os)[j] == LineError(lines[idx[j]], os[idx[j]].parts)
  {
    if |os| > 0 {
      var n := |os| - 1;
      var front, earlier := lines[..n], os[..n];
      ReportsFilter(front, earlier);
      var idx := RejectedAt(earlier);
      var tail := if os[n].Rejected? then [LineError(lines[n], os[n].parts)] else [];
      assert Reports(lines, os) == Reports(front, earlier) + tail;
      assert RejectedAt(os) == idx + (if os[n].Rejected? then [n] else []);
      forall j | 0 <= j < |idx| ensures Reports(lines, os)[j] == LineError(lines[idx[j]], os[idx[j]].parts) {
        assert front[idx[j]] == lines[idx[j]] && earlier[idx[j]] == os[idx[j]];
      }
    }
  }

  /** The error reports printed while reading, in line order. */
  function Rejections(lines: seq<string>): (errs: seq<LineError>)
    requires FileLines(lines)
    ensures |errs| <= |lines|
    ensures forall e :: e in errs ==> e.line in lines && e.parts > 2 && e.parts == |Split(e.line, PairSeparator)|
  {
    var os := Outcomes(lines);
    ReportsFilter(lines, os);
    Reports(lines, os)
  }

  /** The reports are the rejected lines, in file order, each with its part
      count: one report per rejected line and nothing else. */
  lemma RejectionsFilter(lines: seq<string>)
    requires FileLines(lines)
    ensures var os := Outcomes(lines);
            var idx := RejectedAt(os);
            && |Rejections(lines)| == |idx|
            && forall j :: 0 <= j < |idx| ==> Rejections(lines)[j] == LineError(lines[idx[j]], os[idx[j]].parts)
  {
    ReportsFilter(lines, Outcomes(lines));
  }

  /** Every rejected line is reported, with its part count. */
  lemma EveryRejectionReported(lines: seq<string>, i: nat)
    requires FileLines(lines) && i < |lines| && ParseLine(lines[i]).Rejected?
    ensures LineError(lines[i], ParseLine(lines[i]).parts) in Rejections(lines)
  {
    RejectionsFilter(lines);
    var os := Outcomes(lines);
    var idx := RejectedAt(os);
    assert os[i].Rejected?;
    var j :| 0 <= j < |idx| && idx[j] == i;
    assert Rejections(lines)[j] == LineError(lines[i], os[i].parts);
  }

  /** The inner loop of the source: bind each listed key to the value. */
  method BindKeys(m: map<string, Translation>, keys: seq<string>, value: Translation)
    returns (m': map<string, Translation>)
    ensures m' == BindAll(m, keys, value)
  {
    m' := m;
    for j := 0 to |keys|
      invariant m' == BindAll(m, keys[..j], value)
    {
      assert keys[..j + 1][..j] == keys[..j];
      assert BindAll(m, keys[..j + 1], value) == BindAll(m, keys[..j], value)[keys[j] := value];
      m' := m'[keys[j] := value];
    }
    assert keys[..|keys|] == keys;
  }

  /** Reading one more line applies that line's outcome. */
  lemma ReadOneMore(lines: seq<string>, i: nat)
    requires FileLines(lines) && i < |lines|
    ensures FileLines(lines[..i]) && FileLines(lines[..i + 1])
    ensures ReadPhrases(lines[..i + 1]) == Apply(ReadPhrases(lines[..i]), ParseLine(lines[i]))
    ensures Rejections(lines[..i + 1])
              == Rejections(lines[..i]) + (if ParseLine(lines[i]).Rejected? then [LineError(lines[i], ParseLine(lines[i]).parts)] else [])
  {
    assert lines[..i + 1] == lines[..i] + [lines[i]];
    OutcomesAppend(lines[..i], lines[i]);
    var os := Outcomes(lines[..i + 1]);
    assert os[..i] == Outcomes(lines[..i]);
  }

  /** `read_phrases` as the loop it is in the source, reporting rejected lines. */
  method LoadPhrases(lines: seq<string>) returns (mapping: map<string, Translation>, errors: seq<LineError>)
    requires FileLines(lines)
    ensures mapping == ReadPhrases(lines)
    ensures errors == Rejections(lines)
  {
    mapping, errors := map[], [];
    for i := 0 to |lines|
      invariant mapping == ReadPhrases(lines[..i])
      invariant errors == Rejections(lines[..i])
    {
      ReadOneMore(lines, i);
      var line := lines[i];
      var outcome := ParseLine(line);
      if outcome.Rejected? {
        errors := errors + [LineError(line, outcome.parts)];
      } else if outcome.Bound? {
        mapping := BindKeys(mapping, outcome.keys, outcome.value);
      }
    }
    assert lines[..|lines|] == lines;
  }

  /** The outcome binds `k`. */
  predicate BindsKey(o: LineOutcome, k: string) {
    o.Bound? && k in o.keys
  }

  /** The line binds `k` (it is a record with one `||` naming `k` as a source). */
  predicate Binds(line: string, k: string) {
    |line| > 0 && BindsKey(ParseLine(line), k)
  }

  /** Reading `lines` and then `line`: the outcome of `line` is applied last. */
  lemma ReadAppend(lines: seq<string>, line: string)
    requires FileLines(lines) && |line| > 0
    ensures FileLines(lines + [line])
    ensures ReadPhrases(lines + [line]) == Apply(ReadPhrases(lines), ParseLine(line))
  {
    OutcomesAppend(lines, line);
    assert (Outcomes(lines) + [ParseLine(line)])[..|lines|] == Outcomes(lines);
  }

  /** A comment, a line without `||`, or a line with several `||` leaves the
      mapping exactly as it was. */
  lemma SkippedLineKeepsMapping(lines: seq<string>, line: string)
    requires FileLines(lines) && |line| > 0
    requires !IsRecord(line) || |Split(line, PairSeparator)| > 2
    ensures FileLines(lines + [line])
    ensures ReadPhrases(lines + [line]) == ReadPhrases(lines)
  {
    ReadAppend(lines, line);
  }

  /** A record line binds each of its keys to its value and changes nothing else. */
  lemma RecordLineOverwrites(lines: seq<string>, line: string, k: string)
    requires FileLines(lines) && |line| > 0
    requires IsRecord(line) && |Split(line, PairSeparator)| == 2
    ensures FileLines(lines + [line])
    ensures Binds(line, k) ==> k in ReadPhrases(lines + [line]) && ReadPhrases(lines + [line])[k] == ParseLine(line).value
    ensures !Binds(line, k) ==>
              (k in ReadPhrases(lines + [line]) <==> k in ReadPhrases(lines))
              && (k in ReadPhrases(lines) ==> ReadPhrases(lines + [line])[k] == ReadPhrases(lines)[k])
  {
    ReadAppend(lines, line);
  }

  lemma {:induction false} FoldProvenance(os: seq<LineOutcome>, k: string)
    ensures k in Fold(os) <==> exists i :: 0 <= i < |os| && BindsKey(os[i], k)
  {
    if |os| > 0 {
      var front := os[..|os| - 1];
      FoldProvenance(front, k);
      if k in Fold(front) {
        var i :| 0 <= i < |front| && BindsKey(front[i], k);
        assert BindsKey(os[i], k);
      }
      if exists i :: 0 <= i < |os| && BindsKey(os[i], k) {
        var i :| 0 <= i < |os| && BindsKey(os[i], k);
        if i < |front| {
          assert BindsKey(front[i], k);
        }
      }
    }
  }

  /** A key of the folded mapping has a last outcome that binds it, and
      carries that outcome's value. */
  lemma {:induction false} FoldLastBinding(os: seq<LineOutcome>, k: string)
    ensures k in Fold(os) ==>
              exists i :: 0 <= i < |os| && BindsKey(os[i], k)
                && (forall j :: i < j < |os| ==> !BindsKey(os[j], k))
                && Fold(os)[k] == os[i].value
  {
    if |os| > 0 && k in Fold(os) {
      var n := |os| - 1;
      var front := os[..n];
      assert Fold(os) == Apply(Fold(front), os[n]);
      if BindsKey(os[n], k) {
        assert Fold(os)[k] == os[n].value;
      } else {
        assert k in Fold(front) && Fold(os)[k] == Fold(front)[k];
        FoldLastBinding(front, k);
        var i :| 0 <= i < |front| && BindsKey(front[i], k)
                 && (forall j :: i < j < |front| ==> !BindsKey(front[j], k))
                 && Fold(front)[k] == front[i].value;
        assert os[i] == front[i];
        forall j | i < j < |os| ensures !BindsKey(os[j], k) {
          if j < n {
            assert os[j] == front[j];
          }
        }
        assert BindsKey(os[i], k) && Fold(os)[k] == os[i].value;
      }
    }
  }

  /** A key is in the result exactly when some line binds it. */
  lemma KeyProvenance(lines: seq<string>, k: string)
    requires FileLines(lines)
    ensures k in ReadPhrases(lines) <==> exists i :: 0 <= i < |lines| && Binds(lines[i], k)
  {
    var os := Outcomes(lines);
    FoldProvenance(os, k);
    if exists i :: 0 <= i < |lines| && Binds(lines[i], k) {
      var i :| 0 <= i < |lines| && Binds(lines[i], k);
      assert BindsKey(os[i], k);
    }
  }

  /** A phrase in the result carries the translation of the last line that binds it. */
  lemma LastBindingWins(lines: seq<string>, k: string)
    requires FileLines(lines)
    ensures k in ReadPhrases(lines) ==>
              exists i :: 0 <= i < |lines| && Binds(lines[i], k)
                && (forall j :: i < j < |lines| ==> !Binds(lines[j], k))
                && ReadPhrases(lines)[k] == ParseLine(lines[i]).value
  {
    var os := Outcomes(lines);
    FoldLastBinding(os, k);
    if k in ReadPhrases(lines) {
      var i :| 0 <= i < |os| && BindsKey(os[i], k)
               && (forall j :: i < j < |os| ==> !BindsKey(os[j], k))
               && Fold(os)[k] == os[i].value;
      assert Binds(lines[i], k);
      forall j | i < j < |lines| ensures !Binds(lines[j], k) {
        assert !BindsKey(os[j], k);
      }
    }
  }
}
