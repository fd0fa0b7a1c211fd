/** `PlanPDF._wrap_text` of `scripts/generate_plan_pdf.py`: greedy line breaking, and why no other
    line breaking needs fewer lines. */
module WrapText {
  import opened Prelude
  import opened PyText

  /** A line as the words on it. */
  type Group = seq<string>

  function Flatten(groups: seq<Group>): seq<string> {
    if groups == [] then [] else groups[0] + Flatten(groups[1..])
  }

  function Lines(groups: seq<Group>): (r: seq<string>)
    ensures |r| == |groups| && forall i :: 0 <= i < |r| ==> r[i] == Join(groups[i], " ")
  {
    seq(|groups|, i requires 0 <= i < |groups| => Join(groups[i], " "))
  }

  function NonEmpty(words: seq<string>): seq<string> {
    if words == [] then []
    else if words[0] == "" then NonEmpty(words[1..])
    else [words[0]] + NonEmpty(words[1..])
  }

  lemma {:induction false} NonEmptyConcat(a: seq<string>, b: seq<string>)
    ensures NonEmpty(a + b) == NonEmpty(a) + NonEmpty(b)
  {
    if a == [] {
      assert a + b == b;
    } else {
      assert (a + b)[1..] == a[1..] + b;
      NonEmptyConcat(a[1..], b);
    }
  }

  function WordsOf(text: string): seq<string> {
    NonEmpty(Split(text, ' '))
  }

  function Width(width: string -> real, g: Group): real {
    width(Join(g, " "))
  }

  /** Every way to put `words` on lines, in order and without empty lines. */
  ghost predicate IsWrapping(groups: seq<Group>, words: seq<string>) {
    Flatten(groups) == words && forall g :: g in groups ==> g != []
  }

  /** A line of several words must be narrower than the limit; a single word may be too wide. */
  ghost predicate Fits(groups: seq<Group>, width: string -> real, limit: real) {
    forall g :: g in groups && |g| > 1 ==> Width(width, g) < limit
  }

  /** A line breaking of the words whose lines of several words fit, none with that property being shorter. */
  ghost predicate IsShortest(groups: seq<Group>, words: seq<string>, width: string -> real, limit: real) {
    && IsWrapping(groups, words)
    && Fits(groups, width, limit)
    && forall other :: IsWrapping(other, words) && Fits(other, width, limit) ==> |groups| <= |other|
  }

  /** `lines` are the lines of a shortest line breaking, or one empty line when there is no word. */
  ghost predicate WrapsShortest(lines: seq<string>, words: seq<string>, width: string -> real, limit: real) {
    exists groups :: IsShortest(groups, words, width, limit) && lines == if groups == [] then [""] else Lines(groups)
  }

  ghost predicate RunNarrower(width: string -> real, words: seq<string>, i: nat, j: nat, k: nat, l: nat) {
    i <= j < k <= l <= |words| ==> Width(width, words[j..k]) <= Width(width, words[i..l])
  }

  /** A longer run of the words is at least as wide. */
  ghost predicate Monotone(width: string -> real, words: seq<string>) {
    forall i, j, k, l :: RunNarrower(width, words, i, j, k, l)
  }

  /** No line could have taken the first word of the next one. */
  ghost predicate Greedy(groups: seq<Group>, width: string -> real, limit: real) {
    forall i :: 0 <= i < |groups| - 1 && groups[i + 1] != [] ==> Width(width, groups[i] + [groups[i + 1][0]]) >= limit
  }

  // ---- Positions ---------------------------------------------------------------------------------

  /** Number of words on the first `k` lines. */
  function Offset(groups: seq<Group>, k: nat): nat
    requires k <= |groups|
  {
    if k == 0 then 0 else Offset(groups, k - 1) + |groups[k - 1]|
  }

  lemma {:induction false} FlattenConcat(a: seq<Group>, b: seq<Group>)
    ensures Flatten(a + b) == Flatten(a) + Flatten(b)
  {
    if a == [] {
      assert a + b == b;
    } else {
      assert (a + b)[1..] == a[1..] + b;
      FlattenConcat(a[1..], b);
    }
  }

  lemma {:induction false} OffsetIsFlattenedLength(groups: seq<Group>, k: nat)
    requires k <= |groups|
    ensures Offset(groups, k) == |Flatten(groups[..k])| <= |Flatten(groups)|
  {
    if k > 0 {
      OffsetIsFlattenedLength(groups, k - 1);
      assert groups[..k] == groups[..k - 1] + [groups[k - 1]];
      FlattenConcat(groups[..k - 1], [groups[k - 1]]);
      assert [groups[k - 1]][1..] == [];
    }
    assert groups == groups[..k] + groups[k..];
    FlattenConcat(groups[..k], groups[k..]);
  }

  lemma WholeOffset(groups: seq<Group>)
    ensures Offset(groups, |groups|) == |Flatten(groups)|
  {
    OffsetIsFlattenedLength(groups, |groups|);
    assert groups[..|groups|] == groups;
  }

  /** Line `k` is the run of words between two offsets. */
  lemma GroupIsRun(groups: seq<Group>, words: seq<string>, k: nat)
    requires Flatten(groups) == words && k < |groups|
    ensures Offset(groups, k) <= Offset(groups, k + 1) <= |words|
    ensures groups[k] == words[Offset(groups, k)..Offset(groups, k + 1)]
  {
    OffsetIsFlattenedLength(groups, k);
    OffsetIsFlattenedLength(groups, k + 1);
    assert groups == groups[..k] + [groups[k]] + groups[k + 1..];
    FlattenConcat(groups[..k] + [groups[k]], groups[k + 1..]);
    FlattenConcat(groups[..k], [groups[k]]);
    assert [groups[k]][1..] == [];
    assert words == Flatten(groups[..k]) + groups[k] + Flatten(groups[k + 1..]);
  }

  /** A greedy line together with the next word is a run that does not fit. */
  lemma OverfullRun(greedy: seq<Group>, words: seq<string>, width: string -> real, limit: real, k: nat)
    requires IsWrapping(greedy, words) && Greedy(greedy, width, limit) && k + 1 < |greedy|
    ensures var j, e := Offset(greedy, k), Offset(greedy, k + 1);
            j < e < |words| && Width(width, words[j..e + 1]) >= limit
  {
    GroupIsRun(greedy, words, k);
    GroupIsRun(greedy, words, k + 1);
    assert greedy[k] in greedy && greedy[k + 1] in greedy;
    assert greedy[k + 1][0] == words[Offset(greedy, k + 1)];
    assert greedy[k] + [greedy[k + 1][0]] == words[Offset(greedy, k)..Offset(greedy, k + 1) + 1];
  }

  /** A fitting line is a run that fits. */
  lemma FittingRun(groups: seq<Group>, words: seq<string>, width: string -> real, limit: real, k: nat)
    requires IsWrapping(groups, words) && Fits(groups, width, limit) && k < |groups|
    ensures var i, l := Offset(groups, k), Offset(groups, k + 1);
            i <= l <= |words| && (l - i > 1 ==> Width(width, words[i..l]) < limit)
  {
    GroupIsRun(groups, words, k);
    assert groups[k] in groups;
  }

  /** A fitting run that starts no later than an overfull one ends before it does. */
  lemma FittingRunEnds(words: seq<string>, width: string -> real, limit: real, i: nat, l: nat, j: nat, e: nat)
    requires Monotone(width, words)
    requires i <= l <= |words| && (l - i > 1 ==> Width(width, words[i..l]) < limit)
    requires i <= j < e < |words| && Width(width, words[j..e + 1]) >= limit
    ensures l <= e
  {
    assert RunNarrower(width, words, i, j, e + 1, l);
  }

  /** One line of the exchange argument. */
  lemma StaysAheadStep(greedy: seq<Group>, other: seq<Group>, words: seq<string>, width: string -> real,
                       limit: real, k: nat)
    requires IsWrapping(greedy, words) && Greedy(greedy, width, limit)
    requires IsWrapping(other, words) && Fits(other, width, limit)
    requires Monotone(width, words)
    requires k < |greedy| && k < |other|
    requires Offset(greedy, k) >= Offset(other, k)
    ensures Offset(greedy, k + 1) >= Offset(other, k + 1)
  {
    FittingRun(other, words, width, limit, k);
    if k + 1 == |greedy| {
      WholeOffset(greedy);
    } else {
      OverfullRun(greedy, words, width, limit, k);
      FittingRunEnds(words, width, limit,
                     Offset(other, k), Offset(other, k + 1), Offset(greedy, k), Offset(greedy, k + 1));
    }
  }

  /** The exchange argument: after any number of lines the greedy wrapping has used up at least as many words. */
  lemma {:induction false} GreedyStaysAhead(greedy: seq<Group>, other: seq<Group>, words: seq<string>,
                                            width: string -> real, limit: real, k: nat)
    requires IsWrapping(greedy, words) && Greedy(greedy, width, limit)
    requires IsWrapping(other, words) && Fits(other, width, limit)
    requires Monotone(width, words)
    requires k <= |greedy| && k <= |other|
    ensures Offset(greedy, k) >= Offset(other, k)
  {
    if k > 0 {
      GreedyStaysAhead(greedy, other, words, width, limit, k - 1);
      StaysAheadStep(greedy, other, words, width, limit, k - 1);
    }
  }

  /** Greedy wrapping is optimal. */
  lemma GreedyIsShortest(greedy: seq<Group>, other: seq<Group>, words: seq<string>, width: string -> real, limit: real)
    requires IsWrapping(greedy, words) && Greedy(greedy, width, limit)
    requires IsWrapping(other, words) && Fits(other, width, limit)
    requires Monotone(width, words)
    ensures |greedy| <= |other|
  {
    if |other| < |greedy| {
      var n := |other|;
      GreedyStaysAhead(greedy, other, words, width, limit, n);
      OffsetIsFlattenedLength(other, n);
      assert other[..n] == other;
      assert greedy[n] in greedy;
      GroupIsRun(greedy, words, n);
    }
  }

  // ---- The loop ----------------------------------------------------------------------------------

  function Head(g: Group): Group {
    if g == [] then [] else [g[0]]
  }

  /** The state between two words: `done` holds the finished lines, `cur` the line being filled. */
  ghost predicate Filling(done: seq<Group>, cur: Group, words: seq<string>, width: string -> real, limit: real) {
    && Flatten(done) + cur == words
    && (forall g :: g in done ==> g != [])
    && Fits(done, width, limit)
    && (|cur| > 1 ==> Width(width, cur) < limit)
    && Greedy(done, width, limit)
    && (done != [] ==> Width(width, done[|done| - 1] + Head(cur)) >= limit)
  }

  lemma SuffixNarrower(init: seq<string>, last: Group, w: string, width: string -> real)
    requires last != [] && Monotone(width, init + last + [w])
    ensures Width(width, last) <= Width(width, last + [w])
  {
    var all, i, n := init + last + [w], |init|, |init + last|;
    assert all[i..n] == last && all[i..n + 1] == last + [w];
    assert RunNarrower(width, all, i, i, n, n + 1);
  }

  lemma EndsWithLast(done: seq<Group>, words: seq<string>)
    requires Flatten(done) == words && done != []
    ensures words == Flatten(done[..|done| - 1]) + done[|done| - 1]
  {
    assert done == done[..|done| - 1] + [done[|done| - 1]];
    FlattenLast(done[..|done| - 1], done[|done| - 1]);
  }

  lemma WiderByOneWord(done: seq<Group>, w: string, words: seq<string>, width: string -> real)
    requires Flatten(done) == words && done != [] && done[|done| - 1] != []
    requires Monotone(width, words + [w])
    ensures Width(width, done[|done| - 1]) <= Width(width, done[|done| - 1] + [w])
  {
    var init, last := done[..|done| - 1], done[|done| - 1];
    EndsWithLast(done, words);
    SuffixNarrower(Flatten(init), last, w, width);
  }

  /** A word is added to the current line. */
  lemma Extend(done: seq<Group>, cur: Group, w: string, words: seq<string>, width: string -> real, limit: real)
    requires Filling(done, cur, words, width, limit)
    requires Monotone(width, words + [w])
    requires cur == [] || Width(width, cur + [w]) < limit
    ensures Filling(done, cur + [w], words + [w], width, limit)
  {
    assert Flatten(done) + (cur + [w]) == words + [w];
    assert Head(cur + [w]) == if cur == [] then [w] else Head(cur);
    if done != [] && cur == [] {
      var last := done[|done| - 1];
      assert last in done;
      assert last + Head(cur) == last && Flatten(done) == words;
      WiderByOneWord(done, w, words, width);
    }
  }

  /** The current line is finished; `extra` (empty, or the word that no longer fits) starts the next. */
  lemma Close(done: seq<Group>, cur: Group, extra: Group, words: seq<string>, width: string -> real, limit: real)
    requires Filling(done, cur, words, width, limit) && cur != [] && |extra| <= 1
    requires Width(width, cur + extra) >= limit
    ensures Filling(done + [cur], extra, words + extra, width, limit)
  {
    FlattenLast(done, cur);
    assert Head(extra) == extra;
    GreedyLast(done, cur, width, limit);
  }

  lemma FlattenLast(done: seq<Group>, cur: Group)
    ensures Flatten(done + [cur]) == Flatten(done) + cur
  {
    FlattenConcat(done, [cur]);
    assert [cur][1..] == [];
  }

  lemma GreedyLast(done: seq<Group>, cur: Group, width: string -> real, limit: real)
    requires Greedy(done, width, limit) && cur != []
    requires done != [] ==> Width(width, done[|done| - 1] + Head(cur)) >= limit
    ensures Greedy(done + [cur], width, limit)
  {
    var closed := done + [cur];
    forall i | 0 <= i < |closed| - 1 && closed[i + 1] != []
      ensures Width(width, closed[i] + [closed[i + 1][0]]) >= limit
    {
      if i < |done| - 1 {
        assert closed[i + 1] == done[i + 1];
      }
    }
  }

  lemma MonotonePrefix(width: string -> real, words: seq<string>, n: nat)
    requires Monotone(width, words) && n <= |words|
    ensures Monotone(width, words[..n])
  {
    forall i: nat, j: nat, k: nat, l: nat ensures RunNarrower(width, words[..n], i, j, k, l) {
      assert RunNarrower(width, words, i, j, k, l);
      if i <= j < k <= l <= n {
        assert words[..n][j..k] == words[j..k] && words[..n][i..l] == words[i..l];
      }
    }
  }

  predicate IsWord(w: string) {
    w != "" && forall c :: c in w ==> !IsSpace(c)
  }

  lemma {:induction false} JoinedEnds(g: Group)
    requires g != [] && forall w :: w in g ==> IsWord(w)
    ensures Join(g, " ") != "" && !IsSpace(Join(g, " ")[0]) && !IsSpace(Join(g, " ")[|Join(g, " ")| - 1])
  {
    var first := g[0];
    assert first in g && first[0] in first && first[|first| - 1] in first;
    if |g| > 1 {
      assert forall w :: w in g[1..] ==> w in g;
      JoinedEnds(g[1..]);
    }
  }

  /** The word, or nothing when it is empty. */
  function Taken(w: string): Group {
    if w == "" then [] else [w]
  }

  /** What `f"{current} {w}".strip() if current else w` comes to. */
  lemma TestLine(cur: Group, w: string)
    requires forall v :: v in cur ==> IsWord(v)
    requires w == "" || IsWord(w)
    ensures Join(cur, " ") == "" <==> cur == []
    ensures (if cur != [] then Strip(Join(cur, " ") + " " + w) else w) == Join(cur + Taken(w), " ")
  {
    if cur != [] {
      JoinedEnds(cur);
      var current := Join(cur, " ");
      if w == "" {
        assert cur + [] == cur && current + " " + w == current + " ";
        assert (current + " ")[..|current|] == current;
        assert StripLeft(current + " ") == current + " ";
        assert StripRight(current + " ") == StripRight(current) == current;
      } else {
        JoinAppend(cur, w, " ");
        assert current + " " + w == current + (" " + w);
        JoinedEnds(cur + [w]);
        StripIsIdentity(current + " " + w);
      }
    } else {
      assert cur + Taken(w) == Taken(w);
    }
  }

  ghost function NextDone(done: seq<Group>, cur: Group, fits: bool): seq<Group> {
    if fits || cur == [] then done else done + [cur]
  }

  ghost function NextCur(cur: Group, w: string, fits: bool): Group {
    if fits then cur + Taken(w) else Taken(w)
  }

  /** One turn of the loop. */
  lemma Advance(words: seq<string>, i: nat, done: seq<Group>, cur: Group, width: string -> real, limit: real,
                fits: bool)
    requires i < |words| && Monotone(width, NonEmpty(words))
    requires Filling(done, cur, NonEmpty(words[..i]), width, limit)
    requires fits == (Width(width, cur + Taken(words[i])) < limit)
    ensures Filling(NextDone(done, cur, fits), NextCur(cur, words[i], fits), NonEmpty(words[..i + 1]), width, limit)
    ensures Lines(NextDone(done, cur, fits)) == Lines(done) + if fits || cur == [] then [] else [Join(cur, " ")]
  {
    NextWord(words, i);
    MonotoneSeen(words, i + 1, width);
    WordTaken(done, cur, words[i], NonEmpty(words[..i]), width, limit, fits);
    LineTaken(done, cur, fits);
  }

  lemma WordTaken(done: seq<Group>, cur: Group, w: string, seen: seq<string>, width: string -> real, limit: real,
                  fits: bool)
    requires Filling(done, cur, seen, width, limit) && Monotone(width, seen + Taken(w))
    requires fits == (Width(width, cur + Taken(w)) < limit)
    ensures Filling(NextDone(done, cur, fits), NextCur(cur, w, fits), seen + Taken(w), width, limit)
  {
    if fits || cur == [] {
      Grow(done, cur, w, seen, width, limit);
      NothingBefore(cur, Taken(w));
    } else {
      Close(done, cur, Taken(w), seen, width, limit);
    }
  }

  lemma NothingBefore(cur: Group, more: Group)
    ensures cur == [] ==> cur + more == more
  {
  }

  lemma LineTaken(done: seq<Group>, cur: Group, fits: bool)
    ensures Lines(NextDone(done, cur, fits)) == Lines(done) + if fits || cur == [] then [] else [Join(cur, " ")]
  {
  }

  /** `_wrap_text`: the non-empty words in order, every line of several words below the limit, and no
      line breaking with that property that is shorter. */
  method Wrap(text: string, width: string -> real, widthMm: real) returns (lines: seq<string>)
    requires forall c :: c in text && IsSpace(c) ==> c == ' '
    requires Monotone(width, WordsOf(text))
    ensures WrapsShortest(lines, WordsOf(text), width, widthMm - 2.0)
    ensures ReadsBack(lines, text, width, widthMm - 2.0)
  {
    var limit := widthMm - 2.0;
    var words := Split(text, ' ');
    lines := [];
    var current := "";
    ghost var done: seq<Group>, cur: Group := [], [];
    for i := 0 to |words|
      invariant Filling(done, cur, NonEmpty(words[..i]), width, limit)
      invariant lines == Lines(done) && current == Join(cur, " ")
      invariant forall v :: v in cur ==> IsWord(v)
    {
      var w := words[i];
      assert w in words;
      TestLine(cur, w);
      var test := if current != "" then Strip(current + " " + w) else w;
      var fits := width(test) < limit;
      Advance(words, i, done, cur, width, limit, fits);
      if fits {
        current := test;
      } else {
        if current != "" {
          lines := lines + [current];
        }
        current := w;
      }
      done, cur := NextDone(done, cur, fits), NextCur(cur, w, fits);
    }
    assert words[..|words|] == words;
    TestLine(cur, "");
    Conclude(done, cur, WordsOf(text), width, limit);
    if current != "" {
      lines := lines + [current];
    }
    if lines == [] {
      lines := [""];
    }
    LinesReadBack(lines, text, width, limit);
  }

  // ---- The lines as text -------------------------------------------------------------------------

  lemma {:induction false} NonEmptyIsFilter(words: seq<string>)
    ensures NonEmpty(words) == Filter(NotEmpty(), words)
  {
    if words != [] {
      NonEmptyIsFilter(words[1..]);
    }
  }

  /** The words of a text are the pieces between its blanks, in order, without the empty ones. */
  lemma WordsExactly(pieces: seq<string>)
    requires pieces != [] && forall p :: p in pieces ==> ' ' !in p
    ensures WordsOf(Join(pieces, " ")) == Filter(NotEmpty(), pieces)
  {
    SplitOfJoin(pieces, ' ');
    NonEmptyIsFilter(pieces);
  }

  ghost predicate AreWords(words: seq<string>) {
    forall w :: w in words ==> w != "" && ' ' !in w
  }

  lemma WordsAreWords(text: string)
    ensures AreWords(WordsOf(text))
  {
    NonEmptyIsFilter(Split(text, ' '));
  }

  /** Words with single blanks between them read back. */
  lemma WordsReadBack(words: seq<string>)
    requires AreWords(words)
    ensures WordsOf(Join(words, " ")) == words
  {
    if words == [] {
      WordsExactly([""]);
    } else {
      WordsExactly(words);
      FilterAll(NotEmpty(), words);
    }
  }

  lemma {:induction false} JoinOfLines(groups: seq<Group>)
    requires forall g :: g in groups ==> g != []
    ensures Join(Lines(groups), " ") == Join(Flatten(groups), " ")
    ensures groups != [] ==> Flatten(groups) != []
  {
    if groups != [] {
      assert groups[0] in groups && forall g :: g in groups[1..] ==> g in groups;
      JoinOfLines(groups[1..]);
      assert Lines(groups) == [Join(groups[0], " ")] + Lines(groups[1..]);
      if |groups| == 1 {
        assert Flatten(groups[1..]) == [];
        assert groups[0] + [] == groups[0];
      } else {
        assert groups[1..] != [] && Lines(groups[1..]) != [];
        JoinCons(Join(groups[0], " "), Lines(groups[1..]), " ");
        JoinConcat(groups[0], Flatten(groups[1..]), " ");
      }
    }
  }

  lemma {:induction false} GroupIsInside(groups: seq<Group>, g: Group)
    requires g in groups
    ensures forall w :: w in g ==> w in Flatten(groups)
  {
    if g != groups[0] {
      assert g in groups[1..];
      GroupIsInside(groups[1..], g);
    }
  }

  /** The lines put together have the words of the text, in order; and a line with a blank in it fits. */
  ghost predicate ReadsBack(lines: seq<string>, text: string, width: string -> real, limit: real) {
    && WordsOf(Join(lines, " ")) == WordsOf(text)
    && forall l :: l in lines && ' ' in l ==> width(l) < limit
  }

  lemma LinesReadBack(lines: seq<string>, text: string, width: string -> real, limit: real)
    requires WrapsShortest(lines, WordsOf(text), width, limit)
    ensures ReadsBack(lines, text, width, limit)
  {
    var words := WordsOf(text);
    WordsAreWords(text);
    var groups :| IsShortest(groups, words, width, limit) && lines == if groups == [] then [""] else Lines(groups);
    WordsReadBack(words);
    JoinOfLines(groups);
    if groups != [] {
      forall l | l in lines && ' ' in l ensures width(l) < limit {
        var i :| 0 <= i < |lines| && lines[i] == l;
        var g := groups[i];
        assert g in groups;
        GroupIsInside(groups, g);
        JoinShowsSeparator(g, ' ');
      }
    }
  }

  /** The word stays on the current line, or starts one; an empty word changes nothing. */
  lemma Grow(done: seq<Group>, cur: Group, w: string, seen: seq<string>, width: string -> real, limit: real)
    requires Filling(done, cur, seen, width, limit)
    requires Monotone(width, seen + Taken(w))
    requires cur == [] || Width(width, cur + Taken(w)) < limit
    ensures Filling(done, cur + Taken(w), seen + Taken(w), width, limit)
  {
    if w == "" {
      assert seen + [] == seen && cur + [] == cur;
    } else {
      Extend(done, cur, w, seen, width, limit);
    }
  }

  lemma NextWord(words: seq<string>, i: nat)
    requires i < |words|
    ensures NonEmpty(words[..i + 1]) == NonEmpty(words[..i]) + Taken(words[i])
  {
    assert words[..i + 1] == words[..i] + [words[i]];
    NonEmptyConcat(words[..i], [words[i]]);
    assert [words[i]][1..] == [];
  }

  /** The widths of the words seen so far are monotone too. */
  lemma MonotoneSeen(words: seq<string>, n: nat, width: string -> real)
    requires n <= |words| && Monotone(width, NonEmpty(words))
    ensures Monotone(width, NonEmpty(words[..n]))
  {
    assert words == words[..n] + words[n..];
    NonEmptyConcat(words[..n], words[n..]);
    var all, some := NonEmpty(words), NonEmpty(words[..n]);
    assert all[..|some|] == some;
    MonotonePrefix(width, all, |some|);
  }

  /** After the last word the line being filled, if any, is a line like the others, and none is missing. */
  lemma Conclude(done: seq<Group>, cur: Group, words: seq<string>, width: string -> real, limit: real)
    requires Filling(done, cur, words, width, limit) && Monotone(width, words)
    ensures cur != [] ==> WrapsShortest(Lines(done) + [Join(cur, " ")], words, width, limit)
    ensures cur == [] ==> WrapsShortest(if Lines(done) == [] then [""] else Lines(done), words, width, limit)
  {
    if cur == [] {
      assert Flatten(done) + [] == Flatten(done);
      NoneIsShorter(done, words, width, limit);
    } else {
      Finish(done, cur, words, width, limit);
      LinesLast(done, cur);
      NoneIsShorter(done + [cur], words, width, limit);
    }
  }

  lemma Finish(done: seq<Group>, cur: Group, words: seq<string>, width: string -> real, limit: real)
    requires Filling(done, cur, words, width, limit) && cur != []
    ensures IsWrapping(done + [cur], words) && Fits(done + [cur], width, limit) && Greedy(done + [cur], width, limit)
  {
    FlattenLast(done, cur);
    GreedyLast(done, cur, width, limit);
  }

  lemma LinesLast(done: seq<Group>, cur: Group)
    ensures Lines(done + [cur]) == Lines(done) + [Join(cur, " ")]
  {
  }

  lemma NoneIsShorter(groups: seq<Group>, words: seq<string>, width: string -> real, limit: real)
    requires IsWrapping(groups, words) && Fits(groups, width, limit) && Greedy(groups, width, limit)
    requires Monotone(width, words)
    ensures IsShortest(groups, words, width, limit)
  {
    forall other | IsWrapping(other, words) && Fits(other, width, limit) ensures |groups| <= |other| {
      GreedyIsShortest(groups, other, words, width, limit);
    }
  }
}
