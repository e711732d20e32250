/** A model of the senryu detector: morphemes become (surface, reading, mora, pos)
    tokens, every start position is scanned for the first span whose running mora
    total lands on 5 or 7, spans that read as a poetic phrase are collected, and
    three lines are rendered from two 5-mora candidates and one 7-mora candidate
    chosen by the caller (the random draws of `extract_random_senryu`). */
module SenryuDetector {

  datatype Option<T> = None | Some(value: T)

  /** A morpheme as the tagger reports it: its surface form, its kana reading
      (absent when the dictionary has none) and its coarse part of speech. */
  datatype Morpheme = Morpheme(surface: string, kana: Option<string>, pos1: string)

  /** The 4-tuple (surface, reading, mora, pos) built for every morpheme. */
  datatype Token = Token(surface: string, reading: string, mora: nat, pos: string)

  /** A candidate phrase, the contiguous slice words[start..stop]. */
  datatype Span = Span(start: nat, stop: nat)

  /** Parts of speech a phrase may neither open nor close on. */
  const BadBoundary: set<string> := {"助詞", "助動詞", "記号", "補助記号", "接続詞", "連体詞", "接頭辞"}

  /** Content-bearing parts of speech; a phrase needs at least one. */
  const CorePos: set<string> := {"名詞", "動詞", "形容詞", "副詞", "感動詞", "形容動詞"}

  // ---------------------------------------------------------------------------
  // Token construction

  /** `kana or surface` takes the kana only when it is present and non-empty. */
  predicate HasKana(m: Morpheme): (r: bool)
    ensures r <==> m.kana != None && m.kana != Some("")
  {
    m.kana.Some? && m.kana.value != ""
  }

  /** A token whose mora count is the length of its reading. */
  predicate WellFormed(t: Token) {
    t.mora == |t.reading|
  }

  function MakeToken(m: Morpheme): (t: Token)
    ensures WellFormed(t)
    ensures t.surface == m.surface && t.pos == m.pos1
  {
    var reading := if HasKana(m) then m.kana.value else m.surface;
    Token(m.surface, reading, |reading|, m.pos1)
  }

  /** The reading is the kana when there is one, and the surface form otherwise. */
  lemma ReadingFallsBackToSurface(m: Morpheme)
    ensures HasKana(m) ==> MakeToken(m).reading == m.kana.value
    ensures !HasKana(m) ==> MakeToken(m).reading == m.surface
  {
  }

  /** A token counts no mora only when neither its kana nor its surface has a character. */
  lemma ZeroMoraOnlyForEmptyText(m: Morpheme)
    ensures MakeToken(m).mora == 0 <==> (m.surface == "" && !HasKana(m))
  {
  }

  /** The token list: one tuple per morpheme, in order. */
  function Tokenize(ms: seq<Morpheme>): (ws: seq<Token>)
    ensures |ws| == |ms|
    ensures forall i :: 0 <= i < |ws| ==> ws[i] == MakeToken(ms[i])
    ensures forall i :: 0 <= i < |ws| ==> WellFormed(ws[i])
  {
    seq(|ms|, i requires 0 <= i < |ms| => MakeToken(ms[i]))
  }

  // ---------------------------------------------------------------------------
  // The poetic-phrase test

  /** Whether some token carries a content part of speech. */
  function HasContent(tokens: seq<Token>): (r: bool)
    ensures r <==> exists k :: 0 <= k < |tokens| && tokens[k].pos in CorePos
  {
    if tokens == [] then false
    else if tokens[0].pos in CorePos then true
    else
      var rest := HasContent(tokens[1..]);
      assert forall k :: 1 <= k < |tokens| ==> tokens[k] == tokens[1..][k - 1];
      rest
  }

  /** A span reads as a phrase when it has at least two tokens, opens and closes on
      no function word or symbol, and carries some content word. */
  function IsPoeticPhrase(tokens: seq<Token>): (r: bool)
    ensures r <==> (|tokens| >= 2
                    && tokens[0].pos !in BadBoundary
                    && tokens[|tokens| - 1].pos !in BadBoundary
                    && exists k :: 0 <= k < |tokens| && tokens[k].pos in CorePos)
  {
    if |tokens| < 2 then false
    else if tokens[0].pos in BadBoundary || tokens[|tokens| - 1].pos in BadBoundary then false
    else HasContent(tokens)
  }

  lemma ShortSpanIsNotPoetic(tokens: seq<Token>)
    requires |tokens| < 2
    ensures !IsPoeticPhrase(tokens)
  {
  }

  lemma BadBoundaryIsNotPoetic(tokens: seq<Token>)
    requires tokens != []
    requires tokens[0].pos in BadBoundary || tokens[|tokens| - 1].pos in BadBoundary
    ensures !IsPoeticPhrase(tokens)
  {
  }

  // ---------------------------------------------------------------------------
  // Mora sums, readings and surfaces of spans

  function MoraSum(ts: seq<Token>): nat {
    if ts == [] then 0 else ts[0].mora + MoraSum(ts[1..])
  }

  function Readings(ts: seq<Token>): string {
    if ts == [] then "" else ts[0].reading + Readings(ts[1..])
  }

  /** The text of a phrase: its surface forms joined without separator. */
  function Surfaces(ts: seq<Token>): string {
    if ts == [] then "" else ts[0].surface + Surfaces(ts[1..])
  }

  /** The mora of two adjacent spans add up. */
  lemma {:induction false} MoraSumAppend(a: seq<Token>, b: seq<Token>)
    ensures MoraSum(a + b) == MoraSum(a) + MoraSum(b)
  {
    if a == [] {
      assert a + b == b;
    } else {
      assert (a + b)[1..] == a[1..] + b;
      MoraSumAppend(a[1..], b);
    }
  }

  /** Adding words[j] to the span words[i..j] adds its mora to the running total. */
  lemma MoraSumExtend(ws: seq<Token>, i: nat, j: nat)
    requires i <= j < |ws|
    ensures MoraSum(ws[i..j + 1]) == MoraSum(ws[i..j]) + ws[j].mora
  {
    assert ws[i..j + 1] == ws[i..j] + [ws[j]];
    MoraSumAppend(ws[i..j], [ws[j]]);
  }

  /** Mora counts are never negative, so the running total never decreases. */
  lemma {:induction false} MoraSumMonotone(ws: seq<Token>, i: nat, e1: nat, e2: nat)
    requires i <= e1 <= e2 <= |ws|
    ensures MoraSum(ws[i..e1]) <= MoraSum(ws[i..e2])
    decreases e2 - e1
  {
    if e1 < e2 {
      MoraSumExtend(ws, i, e2 - 1);
      MoraSumMonotone(ws, i, e1, e2 - 1);
    }
  }

  /** For tokens built from morphemes, the mora count of a span is the length of
      its joined reading. */
  lemma {:induction false} MoraIsReadingLength(ts: seq<Token>)
    requires forall k :: 0 <= k < |ts| ==> WellFormed(ts[k])
    ensures MoraSum(ts) == |Readings(ts)|
  {
    if ts != [] {
      assert WellFormed(ts[0]);
      MoraIsReadingLength(ts[1..]);
    }
  }

  /** The surface text of two adjacent spans is the concatenation of theirs. */
  lemma {:induction false} SurfacesAppend(a: seq<Token>, b: seq<Token>)
    ensures Surfaces(a + b) == Surfaces(a) + Surfaces(b)
  {
    if a == [] {
      assert a + b == b;
    } else {
      assert (a + b)[1..] == a[1..] + b;
      SurfacesAppend(a[1..], b);
    }
  }

  /** The rendered text of a span: its surface forms joined together, so it begins
      with its first word and ends with its last. */
  function Render(ws: seq<Token>, c: Span): (r: string)
    requires c.start <= c.stop <= |ws|
    ensures c.start == c.stop ==> r == ""
    ensures c.start < c.stop ==> ws[c.start].surface <= r
    ensures c.start < c.stop ==>
      (|ws[c.stop - 1].surface| <= |r| && r[|r| - |ws[c.stop - 1].surface|..] == ws[c.stop - 1].surface)
  {
    if c.start < c.stop then
      SurfacesSplit(ws[c.start..c.stop], c.stop - 1 - c.start);
      assert ws[c.start..c.stop][c.stop - 1 - c.start..] == [ws[c.stop - 1]];
      Surfaces(ws[c.start..c.stop])
    else
      Surfaces(ws[c.start..c.stop])
  }

  /** Each rendered line is a contiguous piece of the surface text of the whole input. */
  lemma LineIsPieceOfText(ws: seq<Token>, c: Span)
    requires c.start <= c.stop <= |ws|
    ensures Surfaces(ws) == Surfaces(ws[..c.start]) + Render(ws, c) + Surfaces(ws[c.stop..])
  {
    var head := ws[..c.stop];
    SurfacesSplit(ws, c.stop);
    SurfacesSplit(head, c.start);
    assert head[..c.start] == ws[..c.start];
    assert head[c.start..] == ws[c.start..c.stop];
  }

  /** Cutting the token list at k cuts its surface text in two. */
  lemma SurfacesSplit(ws: seq<Token>, k: nat)
    requires k <= |ws|
    ensures Surfaces(ws) == Surfaces(ws[..k]) + Surfaces(ws[k..])
  {
    assert ws == ws[..k] + ws[k..];
    SurfacesAppend(ws[..k], ws[k..]);
  }

  // ---------------------------------------------------------------------------
  // Where extension from a start index stops

  /** A running total that sends a span to the 5 or 7 candidate list. */
  predicate Lands(total: int) {
    total == 5 || total == 7
  }

  /** words[i..e] is the span at which extension from i stops on a landing: its
      total is 5 or 7, and every shorter non-empty span from i neither landed nor
      exceeded 7. */
  ghost predicate IsFirstLanding(ws: seq<Token>, i: nat, e: nat) {
    i < e <= |ws| && Lands(MoraSum(ws[i..e])) &&
    forall e' :: i < e' < e ==> !Lands(MoraSum(ws[i..e'])) && MoraSum(ws[i..e']) <= 7
  }

  /** The end of the first landing span from i among the ends e and later,
      recomputing each prefix sum from scratch. */
  function LandFrom(ws: seq<Token>, i: nat, e: nat): (r: Option<nat>)
    requires i < e
    ensures r.Some? ==> e <= r.value <= |ws| && Lands(MoraSum(ws[i..r.value]))
    decreases |ws| + 1 - e
  {
    if e > |ws| then None
    else if Lands(MoraSum(ws[i..e])) then Some(e)
    else if MoraSum(ws[i..e]) > 7 then None
    else LandFrom(ws, i, e + 1)
  }

  function Landing(ws: seq<Token>, i: nat): (r: Option<nat>)
    ensures r.Some? ==> i < r.value <= |ws| && Lands(MoraSum(ws[i..r.value]))
  {
    LandFrom(ws, i, i + 1)
  }

  /** Searching from end e0, when no shorter span landed or overshot, finds exactly
      the first landing. */
  lemma {:induction false} LandFromIff(ws: seq<Token>, i: nat, e0: nat, e: nat)
    requires i < e0 <= |ws| + 1
    requires forall e' :: i < e' < e0 ==> !Lands(MoraSum(ws[i..e'])) && MoraSum(ws[i..e']) <= 7
    ensures LandFrom(ws, i, e0) == Some(e) <==> IsFirstLanding(ws, i, e)
    decreases |ws| + 1 - e0
  {
    if e0 <= |ws| && !Lands(MoraSum(ws[i..e0])) && MoraSum(ws[i..e0]) <= 7 {
      LandFromIff(ws, i, e0 + 1, e);
    } else if IsFirstLanding(ws, i, e) && e > e0 {
      assert i < e0 < e;
    }
  }

  /** The scan from i stops on words[i..e] exactly when that span is the first landing. */
  lemma LandingIff(ws: seq<Token>, i: nat, e: nat)
    ensures Landing(ws, i) == Some(e) <==> IsFirstLanding(ws, i, e)
  {
    if i <= |ws| {
      LandFromIff(ws, i, i + 1, e);
    }
  }

  /** A start index has at most one landing span. */
  lemma LandingUnique(ws: seq<Token>, i: nat, e1: nat, e2: nat)
    requires IsFirstLanding(ws, i, e1) && IsFirstLanding(ws, i, e2)
    ensures e1 == e2
  {
    LandingIff(ws, i, e1);
    LandingIff(ws, i, e2);
  }

  /** Stopping once the total exceeds 7 loses nothing: since totals never decrease,
      the first landing is the first span whose total is 5 or 7. */
  lemma OvershootStopIsRedundant(ws: seq<Token>, i: nat, e: nat)
    ensures IsFirstLanding(ws, i, e) <==>
      (i < e <= |ws| && Lands(MoraSum(ws[i..e])) &&
       forall e' :: i < e' < e ==> !Lands(MoraSum(ws[i..e'])))
  {
    if i < e <= |ws| && Lands(MoraSum(ws[i..e])) {
      forall e' | i < e' < e
        ensures MoraSum(ws[i..e']) <= 7
      {
        MoraSumMonotone(ws, i, e', e);
      }
    }
  }

  // ---------------------------------------------------------------------------
  // Candidate lists

  /** A span the enumeration files under key k: the first landing from its start,
      with total k, that reads as a poetic phrase. */
  ghost predicate IsCandidate(ws: seq<Token>, c: Span, k: nat) {
    IsFirstLanding(ws, c.start, c.stop)
    && MoraSum(ws[c.start..c.stop]) == k
    && IsPoeticPhrase(ws[c.start..c.stop])
  }

  /** What start index s adds to the list of key k. */
  function Found(ws: seq<Token>, s: nat, k: nat): (r: seq<Span>)
    ensures |r| <= 1
    ensures forall a :: 0 <= a < |r| ==> r[a].start == s && s < r[a].stop <= |ws|
  {
    match Landing(ws, s)
    case Some(e) =>
      if MoraSum(ws[s..e]) == k && IsPoeticPhrase(ws[s..e]) then [Span(s, e)] else []
    case None => []
  }

  /** The list of key k after the start indices 0 .. n-1 are scanned. */
  function CandidatesBefore(ws: seq<Token>, k: nat, n: nat): (r: seq<Span>)
    requires n <= |ws|
    ensures |r| <= n
  {
    if n == 0 then [] else CandidatesBefore(ws, k, n - 1) + Found(ws, n - 1, k)
  }

  /** The final list `candidates[k]`. */
  function Candidates(ws: seq<Token>, k: nat): (r: seq<Span>)
    ensures forall a :: 0 <= a < |r| ==> r[a].start < r[a].stop <= |ws|
    ensures forall a, b :: 0 <= a < b < |r| ==> r[a].start < r[b].start
  {
    CandidatesOrdered(ws, k, |ws|);
    CandidatesBefore(ws, k, |ws|)
  }

  /** Non-empty spans ending by len, starting before n, in strictly ascending start order. */
  ghost predicate Ordered(r: seq<Span>, n: nat, len: nat) {
    (forall a :: 0 <= a < |r| ==> r[a].start < n && r[a].start < r[a].stop <= len) &&
    (forall a, b :: 0 <= a < b < |r| ==> r[a].start < r[b].start)
  }

  /** The list of key k holds in-bounds spans of the scanned starts, in strictly
      ascending start order. */
  lemma {:induction false} CandidatesOrdered(ws: seq<Token>, k: nat, n: nat)
    requires n <= |ws|
    ensures Ordered(CandidatesBefore(ws, k, n), n, |ws|)
  {
    if n > 0 {
      CandidatesOrdered(ws, k, n - 1);
      var r, prev, f := CandidatesBefore(ws, k, n), CandidatesBefore(ws, k, n - 1), Found(ws, n - 1, k);
      assert r == prev + f;
      forall a | 0 <= a < |r|
        ensures r[a].start < n && r[a].start < r[a].stop <= |ws|
      {
        if a < |prev| { assert r[a] == prev[a]; } else { assert r[a] == f[a - |prev|]; }
      }
      forall a, b | 0 <= a < b < |r|
        ensures r[a].start < r[b].start
      {
        if b < |prev| {
          assert r[a] == prev[a] && r[b] == prev[b];
        } else {
          assert r[a] == prev[a] && r[b] == f[b - |prev|];
        }
      }
    }
  }

  /** Every listed span is a candidate of its key. */
  lemma CandidatesSound(ws: seq<Token>, k: nat, n: nat, c: Span)
    requires n <= |ws| && c in CandidatesBefore(ws, k, n)
    ensures IsCandidate(ws, c, k)
  {
    ListedWasFound(ws, k, n, c);
    FoundSound(ws, c.start, k, c);
  }

  /** A listed span is what its own start index added. */
  lemma {:induction false} ListedWasFound(ws: seq<Token>, k: nat, n: nat, c: Span)
    requires n <= |ws| && c in CandidatesBefore(ws, k, n)
    ensures c.start < n && c in Found(ws, c.start, k)
  {
    var prev, f := CandidatesBefore(ws, k, n - 1), Found(ws, n - 1, k);
    assert CandidatesBefore(ws, k, n) == prev + f;
    if c in prev {
      ListedWasFound(ws, k, n - 1, c);
    }
  }

  /** What a start index adds is a candidate. */
  lemma FoundSound(ws: seq<Token>, s: nat, k: nat, c: Span)
    requires c in Found(ws, s, k)
    ensures IsCandidate(ws, c, k)
  {
    LandingIff(ws, s, c.stop);
  }

  /** Every candidate of key k whose start was scanned is listed. */
  lemma CandidatesComplete(ws: seq<Token>, k: nat, n: nat, c: Span)
    requires n <= |ws|
    requires IsCandidate(ws, c, k) && c.start < n
    ensures c in CandidatesBefore(ws, k, n)
  {
    FoundComplete(ws, k, c);
    FoundListed(ws, k, n, c);
  }

  /** What a scanned start index added stays in the list. */
  lemma {:induction false} FoundListed(ws: seq<Token>, k: nat, n: nat, c: Span)
    requires n <= |ws| && c.start < n && Found(ws, c.start, k) == [c]
    ensures c in CandidatesBefore(ws, k, n)
  {
    var prev, f := CandidatesBefore(ws, k, n - 1), Found(ws, n - 1, k);
    assert CandidatesBefore(ws, k, n) == prev + f;
    if c.start < n - 1 {
      FoundListed(ws, k, n - 1, c);
      assert c in prev;
    } else {
      assert f == [c];
    }
  }

  /** A candidate is what its start index adds. */
  lemma FoundComplete(ws: seq<Token>, k: nat, c: Span)
    requires IsCandidate(ws, c, k)
    ensures Found(ws, c.start, k) == [c]
  {
    LandingIff(ws, c.start, c.stop);
  }

  /** A start whose total reaches 5 first is never extended to 7, whether or not
      the 5-mora span reads as a phrase: no 7-mora candidate starts there. */
  lemma OneCandidatePerStart(ws: seq<Token>, s: nat, e: nat, c: Span)
    requires IsFirstLanding(ws, s, e) && MoraSum(ws[s..e]) == 5
    requires IsCandidate(ws, c, 7)
    ensures c.start != s
  {
    if c.start == s {
      LandingUnique(ws, s, e, c.stop);
    }
  }

  /** No start index appears in both the 5-mora and the 7-mora list. */
  lemma ListsShareNoStart(ws: seq<Token>, a: Span, b: Span)
    requires a in Candidates(ws, 5) && b in Candidates(ws, 7)
    ensures a.start != b.start
  {
    CandidatesSound(ws, 5, |ws|, a);
    CandidatesSound(ws, 7, |ws|, b);
    OneCandidatePerStart(ws, a.start, a.stop, b);
  }

  /** The scan from i has reached words[i..j+1] and that span lands: start i adds
      the span to the list of its total when it reads as a phrase, and nothing to
      the other list. */
  lemma ScanLands(ws: seq<Token>, i: nat, j: nat)
    requires i <= j < |ws| && Landing(ws, i) == LandFrom(ws, i, j + 1)
    requires Lands(MoraSum(ws[i..j + 1]))
    ensures Found(ws, i, 5) == if MoraSum(ws[i..j + 1]) == 5 && IsPoeticPhrase(ws[i..j + 1]) then [Span(i, j + 1)] else []
    ensures Found(ws, i, 7) == if MoraSum(ws[i..j + 1]) == 7 && IsPoeticPhrase(ws[i..j + 1]) then [Span(i, j + 1)] else []
  {
  }

  /** The scan from i has reached words[i..j+1] and overshot 7: start i adds nothing. */
  lemma ScanOvershoots(ws: seq<Token>, i: nat, j: nat)
    requires i <= j < |ws| && Landing(ws, i) == LandFrom(ws, i, j + 1)
    requires !Lands(MoraSum(ws[i..j + 1])) && MoraSum(ws[i..j + 1]) > 7
    ensures Found(ws, i, 5) == [] && Found(ws, i, 7) == []
  {
  }

  /** The scan from i goes on past words[i..j+1]. */
  lemma ScanContinues(ws: seq<Token>, i: nat, j: nat)
    requires i <= j < |ws| && Landing(ws, i) == LandFrom(ws, i, j + 1)
    requires !Lands(MoraSum(ws[i..j + 1])) && MoraSum(ws[i..j + 1]) <= 7
    ensures Landing(ws, i) == LandFrom(ws, i, j + 2)
  {
  }

  /** The scan from i ran out of words without landing or overshooting: start i adds nothing. */
  lemma ScanExhausted(ws: seq<Token>, i: nat)
    requires i < |ws| && Landing(ws, i) == LandFrom(ws, i, |ws| + 1)
    ensures Found(ws, i, 5) == [] && Found(ws, i, 7) == []
  {
  }

  /** The enumeration of `extract_random_senryu`: every start index in turn is
      scanned, in ascending order, into the two lists. */
  method CollectCandidates(words: seq<Token>) returns (fives: seq<Span>, sevens: seq<Span>)
    ensures fives == Candidates(words, 5)
    ensures sevens == Candidates(words, 7)
  {
    fives, sevens := [], [];
    for i := 0 to |words|
      invariant fives == CandidatesBefore(words, 5, i)
      invariant sevens == CandidatesBefore(words, 7, i)
    {
      fives, sevens := ScanStart(words, i, fives, sevens);
    }
  }

  /** The inner loop for start index i: extend the span while accumulating mora;
      the first time the total is 5 or 7, append the span to the list of that total
      if it reads as a phrase, and stop either way; stop also once the total
      exceeds 7. The lists passed in are returned with what start i adds. */
  method ScanStart(words: seq<Token>, i: nat, fives0: seq<Span>, sevens0: seq<Span>)
    returns (fives: seq<Span>, sevens: seq<Span>)
    requires i < |words|
    ensures fives == fives0 + Found(words, i, 5)
    ensures sevens == sevens0 + Found(words, i, 7)
  {
    fives, sevens := fives0, sevens0;
    var total := 0;
    ghost var stopped := false;
    for j := i to |words|
      invariant total == MoraSum(words[i..j])
      invariant Landing(words, i) == LandFrom(words, i, j + 1)
      invariant fives == fives0 && sevens == sevens0
      invariant !stopped
    {
      MoraSumExtend(words, i, j);
      total := total + words[j].mora;
      if total == 5 || total == 7 {
        var part := words[i..j + 1];
        ScanLands(words, i, j);
        if IsPoeticPhrase(part) {
          if total == 5 {
            fives := fives + [Span(i, j + 1)];
          } else {
            sevens := sevens + [Span(i, j + 1)];
          }
        }
        stopped := true;
        break;
      } else if total > 7 {
        ScanOvershoots(words, i, j);
        stopped := true;
        break;
      }
      ScanContinues(words, i, j);
    }
    if !stopped {
      ScanExhausted(words, i);
    }
  }

  // ---------------------------------------------------------------------------
  // Selection gate and rendering

  /** There are two different 5-mora candidates and a 7-mora candidate. */
  ghost predicate HasSenryuMaterial(ws: seq<Token>) {
    exists a, b, c :: IsCandidate(ws, a, 5) && IsCandidate(ws, b, 5) && a != b && IsCandidate(ws, c, 7)
  }

  /** The count test of the selection gate is the same as the existence of
      material for a verse. */
  lemma GateIff(ws: seq<Token>)
    ensures (|Candidates(ws, 5)| >= 2 && |Candidates(ws, 7)| >= 1) <==> HasSenryuMaterial(ws)
  {
    if |Candidates(ws, 5)| >= 2 && |Candidates(ws, 7)| >= 1 {
      GatePassedHasMaterial(ws);
    }
    if HasSenryuMaterial(ws) {
      MaterialPassesGate(ws);
    }
  }

  /** Two listed 5-mora spans are distinct candidates, since starts ascend strictly. */
  lemma GatePassedHasMaterial(ws: seq<Token>)
    requires |Candidates(ws, 5)| >= 2 && |Candidates(ws, 7)| >= 1
    ensures HasSenryuMaterial(ws)
  {
    var c5, c7 := Candidates(ws, 5), Candidates(ws, 7);
    assert c5[0] in c5 && c5[1] in c5 && c7[0] in c7;
    CandidatesSound(ws, 5, |ws|, c5[0]);
    CandidatesSound(ws, 5, |ws|, c5[1]);
    CandidatesSound(ws, 7, |ws|, c7[0]);
    assert c5[0].start < c5[1].start;
    assert IsCandidate(ws, c5[0], 5) && IsCandidate(ws, c5[1], 5) && IsCandidate(ws, c7[0], 7);
  }

  /** Every candidate is listed, so two distinct 5-mora candidates make the list two long. */
  lemma MaterialPassesGate(ws: seq<Token>)
    requires HasSenryuMaterial(ws)
    ensures |Candidates(ws, 5)| >= 2 && |Candidates(ws, 7)| >= 1
  {
    var a, b, c :| IsCandidate(ws, a, 5) && IsCandidate(ws, b, 5) && a != b && IsCandidate(ws, c, 7);
    var c5 := Candidates(ws, 5);
    CandidatesComplete(ws, 5, |ws|, a);
    CandidatesComplete(ws, 5, |ws|, b);
    CandidatesComplete(ws, 7, |ws|, c);
    DistinctMembers(c5, a, b);
  }

  /** A list holding two different spans has at least two entries. */
  lemma DistinctMembers(s: seq<Span>, a: Span, b: Span)
    requires a in s && b in s && a != b
    ensures |s| >= 2
  {
  }

  /** The random draws, supplied by the caller: when the gate passes, two distinct
      positions in the 5-mora list (random.sample) and one in the 7-mora list
      (random.choice). */
  predicate PicksValid(ws: seq<Token>, first: nat, second: nat, third: nat): (r: bool)
    ensures !(|Candidates(ws, 5)| >= 2 && |Candidates(ws, 7)| >= 1) ==> r
    ensures r && |Candidates(ws, 5)| >= 2 && |Candidates(ws, 7)| >= 1 ==>
      first < |Candidates(ws, 5)| && third < |Candidates(ws, 5)|
      && Candidates(ws, 5)[first] != Candidates(ws, 5)[third]
  {
    |Candidates(ws, 5)| >= 2 && |Candidates(ws, 7)| >= 1 ==>
      first < |Candidates(ws, 5)| && third < |Candidates(ws, 5)| && first != third
      && second < |Candidates(ws, 7)|
  }

  /** The draws can always be made once the gate passes (`random.sample` has two
      phrases to draw from, `random.choice` one), so the precondition of
      `ExtractRandomSenryu` never shuts out an input. */
  lemma DrawsAlwaysPossible(ws: seq<Token>)
    ensures PicksValid(ws, 0, 0, 1)
  {
  }

  /** `extract_random_senryu` with its random choices made by the caller. */
  method ExtractRandomSenryu(morphemes: seq<Morpheme>, first: nat, second: nat, third: nat)
    returns (lines: seq<string>)
    requires PicksValid(Tokenize(morphemes), first, second, third)
    ensures var ws := Tokenize(morphemes);
      var c5, c7 := Candidates(ws, 5), Candidates(ws, 7);
      lines == if |c5| >= 2 && |c7| >= 1
               then [Render(ws, c5[first]), Render(ws, c7[second]), Render(ws, c5[third])]
               else []
    ensures lines == [] <==> !HasSenryuMaterial(Tokenize(morphemes))
    ensures lines == [] || |lines| == 3
    ensures lines != [] ==>
      var ws := Tokenize(morphemes);
      exists a, b, c :: IsCandidate(ws, a, 5) && IsCandidate(ws, b, 7) && IsCandidate(ws, c, 5)
        && a.start != c.start && lines == [Render(ws, a), Render(ws, b), Render(ws, c)]
  {
    var words := Tokenize(morphemes);
    var fives, sevens := CollectCandidates(words);
    GateIff(words);
    if |fives| < 2 || |sevens| == 0 {
      return [];
    }
    lines := [Render(words, fives[first]), Render(words, sevens[second]), Render(words, fives[third])];
    PicksAreCandidates(words, first, second, third);
  }

  /** Valid picks name two 5-mora candidates with different starts and a 7-mora candidate. */
  lemma PicksAreCandidates(ws: seq<Token>, first: nat, second: nat, third: nat)
    requires first < |Candidates(ws, 5)| && third < |Candidates(ws, 5)| && first != third
    requires second < |Candidates(ws, 7)|
    ensures IsCandidate(ws, Candidates(ws, 5)[first], 5) && IsCandidate(ws, Candidates(ws, 5)[third], 5)
    ensures IsCandidate(ws, Candidates(ws, 7)[second], 7)
    ensures Candidates(ws, 5)[first].start != Candidates(ws, 5)[third].start
  {
    var c5, c7 := Candidates(ws, 5), Candidates(ws, 7);
    assert c5[first] in c5 && c7[second] in c7 && c5[third] in c5;
    CandidatesSound(ws, 5, |ws|, c5[first]);
    CandidatesSound(ws, 7, |ws|, c7[second]);
    CandidatesSound(ws, 5, |ws|, c5[third]);
  }
}
