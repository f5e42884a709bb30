/** The client's game panel (frontend/app/components/GameInfo.tsx): the
    masked keyword shown to the guesser, the guard on submitting a guess, and
    the style of each guess in the list. The JSX layout is not modelled. */
module GameInfo {
  import opened Wrappers
  import opened Types
  import opened JsBuiltins

  const Loading: string := "Carregando..."

  predicate IsGuesser(player: Option<Player>) {
    player.Some? && player.value.role == Guesser
  }

  // ---------------------------------------------------------------------
  // Masking one part: display.replace(new RegExp(part, "gi"), mask)
  // ---------------------------------------------------------------------

  /** Equality under the `i` flag of a regular expression. */
  predicate SameIgnoringCase(a: string, b: string)
    decreases |a|
  {
    |a| == |b| && (|a| == 0 || (UpperChar(a[0]) == UpperChar(b[0]) && SameIgnoringCase(a[1..], b[1..])))
  }

  /** Two strings are equal ignoring case iff they have the same length and
      agree, ignoring case, at every position. */
  lemma {:induction false} SameIgnoringCaseAt(a: string, b: string)
    ensures SameIgnoringCase(a, b) <==> |a| == |b| && forall k :: 0 <= k < |a| ==> UpperChar(a[k]) == UpperChar(b[k])
    decreases |a|
  {
    if |a| == |b| && |a| > 0 {
      SameIgnoringCaseAt(a[1..], b[1..]);
      if forall k :: 0 <= k < |a| ==> UpperChar(a[k]) == UpperChar(b[k]) {
        forall k | 0 <= k < |a| - 1 ensures UpperChar(a[1..][k]) == UpperChar(b[1..][k]) {
          assert a[1..][k] == a[k + 1] && b[1..][k] == b[k + 1];
        }
      }
    }
  }

  /** Every string is equal to itself ignoring case. */
  lemma {:induction false} SameIgnoringCaseReflexive(a: string)
    ensures SameIgnoringCase(a, a)
    decreases |a|
  {
    if |a| > 0 {
      SameIgnoringCaseReflexive(a[1..]);
    }
  }

  /** `part` occurs, ignoring case, at position `i` of `s`. */
  predicate OccursAt(s: string, part: string, i: int) {
    0 <= i && i + |part| <= |s| && SameIgnoringCase(s[i..i + |part|], part)
  }

  /** `m.replace(/\S/g, "_")` on one character. */
  function MaskChar(c: char): (m: char)
    ensures IsWhitespace(c) ==> m == c
    ensures !IsWhitespace(c) ==> m == '_'
  {
    if IsWhitespace(c) then c else '_'
  }

  /** `m.replace(/\S/g, "_")`. */
  function Mask(m: string): (r: string)
    ensures |r| == |m|
    ensures forall k :: 0 <= k < |m| ==> r[k] == MaskChar(m[k])
  {
    seq(|m|, k requires 0 <= k < |m| => MaskChar(m[k]))
  }

  /** `s.replace(new RegExp(part, "gi"), m => m.replace(/\S/g, "_"))` for a
      part without metacharacters: the scan goes left to right, masks each
      match and resumes after it, so matches never overlap. An empty pattern
      matches only the empty string and changes nothing. */
  function ReplaceAll(s: string, part: string): (r: string)
    ensures |r| == |s|
    decreases |s|
  {
    if |part| == 0 || |s| < |part| then s
    else if SameIgnoringCase(s[..|part|], part) then Mask(s[..|part|]) + ReplaceAll(s[|part|..], part)
    else [s[0]] + ReplaceAll(s[1..], part)
  }

  /** Masking one part changes a character only into `_`, and only when it
      is not white space. */
  lemma {:induction false} ReplaceAllOnlyMasks(s: string, part: string)
    ensures forall k :: 0 <= k < |s| ==> ReplaceAll(s, part)[k] == s[k] || ReplaceAll(s, part)[k] == MaskChar(s[k])
    decreases |s|
  {
    var n := |part|;
    if n > 0 && |s| >= n {
      var r := ReplaceAll(s, part);
      if SameIgnoringCase(s[..n], part) {
        var front, rest := Mask(s[..n]), ReplaceAll(s[n..], part);
        assert r == front + rest;
        ReplaceAllOnlyMasks(s[n..], part);
        forall k | n <= k < |s| ensures r[k] == rest[k - n] && s[n..][k - n] == s[k] {
        }
      } else {
        var rest := ReplaceAll(s[1..], part);
        assert r == [s[0]] + rest;
        ReplaceAllOnlyMasks(s[1..], part);
        forall k | 1 <= k < |s| ensures r[k] == rest[k - 1] && s[1..][k - 1] == s[k] {
        }
      }
    }
  }

  lemma OccursAtShift(s: string, part: string, d: nat, j: int)
    requires d <= |s|
    ensures OccursAt(s[d..], part, j) <==> 0 <= j && OccursAt(s, part, j + d)
  {
    if 0 <= j && j + |part| <= |s| - d {
      assert s[d..][j..j + |part|] == s[j + d..j + d + |part|];
    }
  }

  /** A character that the masking changes lies inside an occurrence of the
      part. */
  lemma {:induction false} ReplaceAllChangesOnlyOccurrences(s: string, part: string, k: int)
    requires 0 <= k < |s| && ReplaceAll(s, part)[k] != s[k]
    ensures exists i :: i <= k < i + |part| && OccursAt(s, part, i)
    decreases |s|
  {
    var n := |part|;
    if SameIgnoringCase(s[..n], part) {
      if k < n {
        assert s[0..n] == s[..n];
        assert OccursAt(s, part, 0);
      } else {
        ReplaceAllChangesOnlyOccurrences(s[n..], part, k - n);
        var i :| i <= k - n < i + n && OccursAt(s[n..], part, i);
        OccursAtShift(s, part, n, i);
      }
    } else {
      ReplaceAllChangesOnlyOccurrences(s[1..], part, k - 1);
      var i :| i <= k - 1 < i + n && OccursAt(s[1..], part, i);
      OccursAtShift(s, part, 1, i);
    }
  }

  /** A stretch of `s` without occurrences stays without them once the
      first `d` characters are dropped. */
  lemma NoOccurrenceInSuffix(s: string, part: string, d: nat, lo: int, hi: int)
    requires d <= |s|
    requires forall j :: lo + d <= j < hi + d ==> !OccursAt(s, part, j)
    ensures forall j :: lo <= j < hi ==> !OccursAt(s[d..], part, j)
  {
    forall j | lo <= j < hi ensures !OccursAt(s[d..], part, j) {
      OccursAtShift(s, part, d, j);
    }
  }

  /** One step of the scan when the part matches at the front. */
  lemma ReplaceAllMatch(s: string, part: string)
    requires |part| > 0 && |s| >= |part| && SameIgnoringCase(s[..|part|], part)
    ensures ReplaceAll(s, part) == Mask(s[..|part|]) + ReplaceAll(s[|part|..], part)
  {
  }

  /** One step of the scan when the part does not match at the front. */
  lemma ReplaceAllStep(s: string, part: string)
    requires |part| > 0 && |s| >= |part| && !SameIgnoringCase(s[..|part|], part)
    ensures ReplaceAll(s, part) == [s[0]] + ReplaceAll(s[1..], part)
  {
  }

  /** Before the first occurrence of the part nothing changes. */
  lemma {:induction false} ReplaceAllSkips(s: string, part: string, m: nat)
    requires m <= |s|
    requires forall j :: 0 <= j < m ==> !OccursAt(s, part, j)
    ensures ReplaceAll(s, part) == s[..m] + ReplaceAll(s[m..], part)
    decreases m, 1
  {
    if m == 0 {
      assert s[m..] == s;
    } else if |part| == 0 || |s| < |part| {
      assert s[..m] + s[m..] == s;
    } else {
      SkipsOneCharacter(s, part, m);
    }
  }

  /** ReplaceAllSkips when the scan steps over the first character of `s`. */
  lemma {:induction false} SkipsOneCharacter(s: string, part: string, m: nat)
    requires 0 < m <= |s| && 0 < |part| <= |s|
    requires forall j :: 0 <= j < m ==> !OccursAt(s, part, j)
    ensures ReplaceAll(s, part) == s[..m] + ReplaceAll(s[m..], part)
    decreases m, 0
  {
    var n := |part|;
    var tail, rest := s[1..], ReplaceAll(s[m..], part);
    assert ReplaceAll(s, part) == [s[0]] + (tail[..m - 1] + rest) by {
      assert !SameIgnoringCase(s[..n], part) by { assert s[0..n] == s[..n]; assert !OccursAt(s, part, 0); }
      NoOccurrenceInSuffix(s, part, 1, 0, m - 1);
      ReplaceAllStep(s, part);
      ReplaceAllSkips(tail, part, m - 1);
      assert tail[m - 1..] == s[m..];
    }
    assert s[..m] == [s[0]] + tail[..m - 1];
    assert [s[0]] + (tail[..m - 1] + rest) == ([s[0]] + tail[..m - 1]) + rest;
  }

  /** An occurrence that no earlier occurrence overlaps is masked
      completely. */
  lemma {:induction false} ReplaceAllMasksOccurrence(s: string, part: string, i: int)
    requires OccursAt(s, part, i)
    requires forall j :: i - |part| < j < i ==> !OccursAt(s, part, j)
    ensures forall k :: i <= k < i + |part| ==> ReplaceAll(s, part)[k] == MaskChar(s[k])
    decreases |s|
  {
    var n := |part|;
    if n > 0 {
      var r := ReplaceAll(s, part);
      if SameIgnoringCase(s[..n], part) {
        if i < n {
          assert s[0..n] == s[..n];
          assert OccursAt(s, part, 0);
          assert r[..n] == Mask(s[..n]);
        } else {
          SkipMatch(s, part, i);
        }
      } else {
        assert i != 0 by { assert s[0..n] == s[..n]; }
        SkipCharacter(s, part, i);
      }
    }
  }

  /** ReplaceAllMasksOccurrence when the scan matches at the front of `s`. */
  lemma {:induction false} SkipMatch(s: string, part: string, i: int)
    requires |part| > 0 && |s| >= |part| && SameIgnoringCase(s[..|part|], part)
    requires |part| <= i && OccursAt(s, part, i)
    requires forall j :: i - |part| < j < i ==> !OccursAt(s, part, j)
    ensures forall k :: i <= k < i + |part| ==> ReplaceAll(s, part)[k] == MaskChar(s[k])
    decreases |s|, 0
  {
    var n := |part|;
    var tail := s[n..];
    var r, front, rest := ReplaceAll(s, part), Mask(s[..n]), ReplaceAll(tail, part);
    assert forall k :: i - n <= k < i ==> rest[k] == MaskChar(tail[k]) by {
      OccursAtShift(s, part, n, i - n);
      NoOccurrenceInSuffix(s, part, n, i - n - n + 1, i - n);
      ReplaceAllMasksOccurrence(tail, part, i - n);
    }
    assert r == front + rest && |front| == n by {
      ReplaceAllMatch(s, part);
    }
    forall k | i <= k < i + n ensures r[k] == MaskChar(s[k]) {
      assert r[k] == rest[k - n];
      assert tail[k - n] == s[k];
    }
  }

  /** ReplaceAllMasksOccurrence when the scan steps over the first
      character of `s`. */
  lemma {:induction false} SkipCharacter(s: string, part: string, i: int)
    requires |part| > 0 && |s| >= |part| && !SameIgnoringCase(s[..|part|], part)
    requires 0 < i && OccursAt(s, part, i)
    requires forall j :: i - |part| < j < i ==> !OccursAt(s, part, j)
    ensures forall k :: i <= k < i + |part| ==> ReplaceAll(s, part)[k] == MaskChar(s[k])
    decreases |s|, 0
  {
    var n := |part|;
    var tail := s[1..];
    OccursAtShift(s, part, 1, i - 1);
    NoOccurrenceInSuffix(s, part, 1, i - n, i - 1);
    ReplaceAllMasksOccurrence(tail, part, i - 1);
    var r, rest := ReplaceAll(s, part), ReplaceAll(tail, part);
    ReplaceAllStep(s, part);
    assert r == [s[0]] + rest;
    forall k | i <= k < i + n ensures r[k] == MaskChar(s[k]) {
      assert r[k] == rest[k - 1];
      assert tail[k - 1] == s[k];
    }
  }

  // ---------------------------------------------------------------------
  // Masking every unguessed part, one after the other
  // ---------------------------------------------------------------------

  /** The masking of the `forEach` over the unguessed parts: each part is
      matched against the display as the previous parts left it. */
  function MaskAll(s: string, parts: seq<string>): (r: string)
    ensures |r| == |s|
    ensures forall k :: 0 <= k < |s| ==> r[k] == s[k] || r[k] == MaskChar(s[k])
    decreases |parts|
  {
    if parts == [] then s else ReplaceAllOnlyMasks(s, parts[0]); MaskAll(ReplaceAll(s, parts[0]), parts[1..])
  }

  /** Masking cannot create an occurrence of a part without `_`: a masked
      character is `_` and only `_` matches it. */
  lemma OccurrenceSurvivesMasking(s: string, t: string, p: string, i: int)
    requires |t| == |s| && forall k :: 0 <= k < |s| ==> t[k] == s[k] || t[k] == MaskChar(s[k])
    requires '_' !in p && OccursAt(t, p, i)
    ensures OccursAt(s, p, i)
  {
    SameIgnoringCaseAt(t[i..i + |p|], p);
    SameIgnoringCaseAt(s[i..i + |p|], p);
    forall k | 0 <= k < |p| ensures UpperChar(s[i..i + |p|][k]) == UpperChar(p[k]) {
      assert UpperChar(t[i..i + |p|][k]) == UpperChar(p[k]);
    }
  }

  /** A character that the whole masking changes lies inside an occurrence,
      in the original text, of one of the parts. */
  lemma {:induction false} MaskAllChangesOnlyOccurrences(s: string, parts: seq<string>, k: int)
    requires forall q :: q in parts ==> '_' !in q
    requires 0 <= k < |s| && MaskAll(s, parts)[k] != s[k]
    ensures exists p, i :: p in parts && i <= k < i + |p| && OccursAt(s, p, i)
    decreases |parts|
  {
    var t := ReplaceAll(s, parts[0]);
    ReplaceAllOnlyMasks(s, parts[0]);
    if t[k] != s[k] {
      ReplaceAllChangesOnlyOccurrences(s, parts[0], k);
      var i :| i <= k < i + |parts[0]| && OccursAt(s, parts[0], i);
      assert parts[0] in parts;
    } else {
      MaskAllChangesOnlyOccurrences(t, parts[1..], k);
      var p, i :| p in parts[1..] && i <= k < i + |p| && OccursAt(t, p, i);
      OccurrenceSurvivesMasking(s, t, p, i);
      assert p in parts;
    }
  }

  /** The converse: an occurrence of a part is masked completely by the
      whole `forEach`, provided no earlier occurrence of the same part
      overlaps it from the left and no occurrence of a part masked before it
      overlaps it at all. (Without the last condition the claim fails: with
      the parts `A` and `A B`, masking `A` first in `A A B` leaves the
      occurrence of `A B` unmatched, and the `B` visible.) */
  lemma {:induction false} MaskAllMasksOccurrence(s: string, parts: seq<string>, idx: int, i: int)
    requires 0 <= idx < |parts|
    requires forall q :: q in parts ==> '_' !in q
    requires OccursAt(s, parts[idx], i)
    requires forall j :: i - |parts[idx]| < j < i ==> !OccursAt(s, parts[idx], j)
    requires forall m, j :: 0 <= m < idx && OccursAt(s, parts[m], j) ==> j + |parts[m]| <= i || i + |parts[idx]| <= j
    ensures forall k :: i <= k < i + |parts[idx]| ==> MaskAll(s, parts)[k] == MaskChar(s[k])
    decreases |parts|
  {
    var p := parts[idx];
    var t := ReplaceAll(s, parts[0]);
    ReplaceAllOnlyMasks(s, parts[0]);
    assert MaskAll(s, parts) == MaskAll(t, parts[1..]);
    if idx == 0 {
      ReplaceAllMasksOccurrence(s, p, i);
    } else {
      var rest := parts[1..];
      assert OccursAt(t, p, i) by {
        MaskingElsewhereKeepsOccurrence(s, parts[0], p, i);
      }
      assert forall j :: i - |p| < j < i ==> !OccursAt(t, p, j) by {
        assert p in parts;
        forall j | i - |p| < j < i ensures !OccursAt(t, p, j) {
          if OccursAt(t, p, j) {
            OccurrenceSurvivesMasking(s, t, p, j);
          }
        }
      }
      assert forall m, j :: 0 <= m < idx - 1 && OccursAt(t, rest[m], j) ==> j + |rest[m]| <= i || i + |p| <= j by {
        forall m, j | 0 <= m < idx - 1 && OccursAt(t, rest[m], j) ensures j + |rest[m]| <= i || i + |p| <= j {
          assert rest[m] == parts[m + 1] && rest[m] in parts;
          OccurrenceSurvivesMasking(s, t, rest[m], j);
        }
      }
      assert forall q :: q in rest ==> '_' !in q by {
        forall q | q in rest ensures '_' !in q {
          assert q in parts;
        }
      }
      assert rest[idx - 1] == p;
      MaskAllMasksOccurrence(t, rest, idx - 1, i);
    }
  }

  /** Masking a part `q` none of whose occurrences overlaps an occurrence
      of `p` leaves that occurrence of `p` as it was. */
  lemma MaskingElsewhereKeepsOccurrence(s: string, q: string, p: string, i: int)
    requires OccursAt(s, p, i)
    requires forall j :: OccursAt(s, q, j) ==> j + |q| <= i || i + |p| <= j
    ensures ReplaceAll(s, q)[i..i + |p|] == s[i..i + |p|]
    ensures OccursAt(ReplaceAll(s, q), p, i)
  {
    var t := ReplaceAll(s, q);
    forall k | i <= k < i + |p| ensures t[k] == s[k] {
      if t[k] != s[k] {
        ReplaceAllChangesOnlyOccurrences(s, q, k);
      }
    }
    assert t[i..i + |p|] == s[i..i + |p|];
  }

  // ---------------------------------------------------------------------
  // The keyword display
  // ---------------------------------------------------------------------

  /** `game.word.parts.filter(p => !game.partsGuessed.includes(p.toUpperCase()))`. */
  function Unguessed(parts: (string, string), partsGuessed: seq<string>): (r: seq<string>)
    ensures forall p :: p in r <==> (p == parts.0 || p == parts.1) && Upper(p) !in partsGuessed
    ensures |r| <= 2
  {
    FilterMembers([parts.0, parts.1], p => Upper(p) !in partsGuessed);
    Filter([parts.0, parts.1], p => Upper(p) !in partsGuessed)
  }

  /** What `generateKeywordDisplay` returns. */
  function KeywordDisplay(game: GameState, player: Option<Player>): string {
    match game.word
    case None => Loading
    case Some(w) =>
      if IsGuesser(player) then Spaced(MaskAll(w.keyword, Unguessed(w.parts, game.partsGuessed)))
      else Spaced(w.keyword)
  }

  method GenerateKeywordDisplay(game: GameState, player: Option<Player>) returns (display: string)
    ensures display == KeywordDisplay(game, player)
  {
    if game.word.None? {
      return Loading;
    }
    var w := game.word.value;
    if IsGuesser(player) {
      var masked := w.keyword;
      var unGuessedParts := Unguessed(w.parts, game.partsGuessed);
      var i := 0;
      while i < |unGuessedParts|
        invariant 0 <= i <= |unGuessedParts|
        invariant MaskAll(masked, unGuessedParts[i..]) == MaskAll(w.keyword, unGuessedParts)
      {
        assert unGuessedParts[i..][1..] == unGuessedParts[i + 1..];
        masked := ReplaceAll(masked, unGuessedParts[i]);
        i := i + 1;
      }
      assert unGuessedParts[i..] == [];
      return Spaced(masked);
    }
    return Spaced(w.keyword);
  }

  /** Without a puzzle every player sees the loading text. */
  lemma DisplayWhileLoading(game: GameState, player: Option<Player>)
    requires game.word.None?
    ensures KeywordDisplay(game, player) == "Carregando..."
  {
  }

  /** A player other than the guesser sees every character of the keyword,
      separated by single spaces. */
  lemma DisplayForDrawers(game: GameState, player: Option<Player>)
    requires game.word.Some? && !IsGuesser(player)
    ensures var kw, d := game.word.value.keyword, KeywordDisplay(game, player);
      && (|kw| > 0 ==> |d| == 2 * |kw| - 1)
      && (forall k :: 0 <= k < |kw| ==> d[2 * k] == kw[k])
      && (forall j :: 0 <= j < |d| && j % 2 == 1 ==> d[j] == ' ')
  {
    var kw, d := game.word.value.keyword, KeywordDisplay(game, player);
    forall k | 0 <= k < |kw| ensures d[2 * k] == kw[k] {
      assert (2 * k) / 2 == k;
    }
  }

  /** The guesser sees a display of the same shape in which only
      non-white-space characters of the keyword may have become `_`. */
  lemma DisplayForGuesser(game: GameState, player: Option<Player>)
    requires game.word.Some? && IsGuesser(player)
    ensures var kw, d := game.word.value.keyword, KeywordDisplay(game, player);
      && (|kw| > 0 ==> |d| == 2 * |kw| - 1)
      && (forall k :: 0 <= k < |kw| ==> d[2 * k] == kw[k] || (d[2 * k] == '_' && !IsWhitespace(kw[k])))
      && (forall j :: 0 <= j < |d| && j % 2 == 1 ==> d[j] == ' ')
  {
    var w := game.word.value;
    var kw, d := w.keyword, KeywordDisplay(game, player);
    var masked := MaskAll(kw, Unguessed(w.parts, game.partsGuessed));
    forall k | 0 <= k < |kw| ensures d[2 * k] == kw[k] || (d[2 * k] == '_' && !IsWhitespace(kw[k])) {
      assert (2 * k) / 2 == k;
      assert d[2 * k] == masked[k];
    }
  }

  /** For the guesser, a character outside every occurrence of every
      unguessed part (the hyphen of GUARDA-CHUVA, a guessed part) is shown
      as it is. */
  lemma GuesserSeesOutsideUnguessedParts(game: GameState, player: Option<Player>, k: int)
    requires game.word.Some? && IsGuesser(player)
    requires '_' !in game.word.value.parts.0 && '_' !in game.word.value.parts.1
    requires 0 <= k < |game.word.value.keyword|
    requires KeywordDisplay(game, player)[2 * k] != game.word.value.keyword[k]
    ensures exists p, i ::
      && (p == game.word.value.parts.0 || p == game.word.value.parts.1)
      && Upper(p) !in game.partsGuessed
      && i <= k < i + |p| && OccursAt(game.word.value.keyword, p, i)
  {
    var w := game.word.value;
    var u := Unguessed(w.parts, game.partsGuessed);
    assert (2 * k) / 2 == k;
    MaskAllChangesOnlyOccurrences(w.keyword, u, k);
  }

  /** The guesser sees `_` in place of every non-white-space character of an
      occurrence of an unguessed part, when no earlier occurrence of that
      part and no occurrence of the other unguessed part overlaps it. */
  lemma GuesserSeesUnguessedPartsMasked(game: GameState, player: Option<Player>, p: string, i: int)
    requires game.word.Some? && IsGuesser(player)
    requires '_' !in game.word.value.parts.0 && '_' !in game.word.value.parts.1
    requires (p == game.word.value.parts.0 || p == game.word.value.parts.1) && Upper(p) !in game.partsGuessed
    requires OccursAt(game.word.value.keyword, p, i)
    requires forall j :: i - |p| < j < i ==> !OccursAt(game.word.value.keyword, p, j)
    requires forall q, j ::
      && (q == game.word.value.parts.0 || q == game.word.value.parts.1) && q != p
      && Upper(q) !in game.partsGuessed && OccursAt(game.word.value.keyword, q, j)
      ==> j + |q| <= i || i + |p| <= j
    ensures forall k :: i <= k < i + |p| ==> KeywordDisplay(game, player)[2 * k] == MaskChar(game.word.value.keyword[k])
  {
    var w := game.word.value;
    var u := Unguessed(w.parts, game.partsGuessed);
    var idx := if u[0] == p then 0 else 1;
    assert u[idx] == p;
    forall m, j | 0 <= m < idx && OccursAt(w.keyword, u[m], j) ensures j + |u[m]| <= i || i + |p| <= j {
      assert u[m] in u;
    }
    MaskAllMasksOccurrence(w.keyword, u, idx, i);
    var masked := MaskAll(w.keyword, u);
    forall k | i <= k < i + |p| ensures KeywordDisplay(game, player)[2 * k] == MaskChar(w.keyword[k]) {
      assert (2 * k) / 2 == k && (2 * k) % 2 == 0;
      assert Spaced(masked)[2 * k] == masked[k];
    }
  }

  /** Once both parts are guessed, the guesser sees what the drawers see. */
  lemma AllPartsGuessedShowsKeyword(game: GameState, guesser: Option<Player>, other: Option<Player>)
    requires game.word.Some? && IsGuesser(guesser) && !IsGuesser(other)
    requires Upper(game.word.value.parts.0) in game.partsGuessed
    requires Upper(game.word.value.parts.1) in game.partsGuessed
    ensures KeywordDisplay(game, guesser) == KeywordDisplay(game, other)
  {
    var w := game.word.value;
    FilterKeepsNone([w.parts.0, w.parts.1], p => Upper(p) !in game.partsGuessed);
  }

  // ---------------------------------------------------------------------
  // Submitting a guess and styling the list of guesses
  // ---------------------------------------------------------------------

  /** The guess `handleSubmit` passes to `onGuess`, if any: the trimmed text,
      when it is not blank and the player is the guesser. */
  function SubmittedGuess(text: string, player: Option<Player>): (r: Option<string>)
    ensures r.Some? <==> !AllWhitespace(text) && IsGuesser(player)
    ensures r.Some? ==> r.value != [] && !IsWhitespace(r.value[0]) && !IsWhitespace(r.value[|r.value| - 1])
    ensures r.Some? ==> exists i, j :: 0 <= i <= j <= |text| && r.value == text[i..j] && AllWhitespace(text[..i]) && AllWhitespace(text[j..])
    ensures r.Some? ==> r.value == Trim(text)
  {
    var t := Trim(text);
    if t != [] && IsGuesser(player) then Some(t) else None
  }

  /** The text box of the panel and the guesses it has handed on. */
  class GuessForm {
    var currentGuess: string
    /** The arguments of the calls to `onGuess`, oldest first. */
    var sent: seq<string>

    constructor ()
      ensures currentGuess == "" && sent == []
    {
      currentGuess := "";
      sent := [];
    }

    /** The input's `onChange`. */
    method Change(text: string)
      modifies this
      ensures currentGuess == text && sent == old(sent)
    {
      currentGuess := text;
    }

    method HandleSubmit(player: Option<Player>)
      modifies this
      ensures !AllWhitespace(old(currentGuess)) && IsGuesser(player) ==>
        sent == old(sent) + [Trim(old(currentGuess))] && currentGuess == ""
      ensures AllWhitespace(old(currentGuess)) || !IsGuesser(player) ==>
        sent == old(sent) && currentGuess == old(currentGuess)
    {
      var guess := SubmittedGuess(currentGuess, player);
      if guess.Some? {
        sent := sent + [guess.value];
        currentGuess := "";
      }
    }
  }

  datatype GuessStyle = GuessNormal | GuessCorrectPart | GuessCorrectKeyword

  /** `getGuessStyle`: the two kinds of correct guess have their own style,
      any other value of `type` the normal one. */
  function GetGuessStyle(kind: string): (r: GuessStyle)
    ensures r == GuessCorrectPart <==> kind == "correct_part"
    ensures r == GuessCorrectKeyword <==> kind == "correct_keyword"
  {
    match kind
    case "correct_part" => GuessCorrectPart
    case "correct_keyword" => GuessCorrectKeyword
    case _ => GuessNormal
  }

  /** Each guess type gets a style of its own. */
  lemma GuessStylesDistinct(t: GuessType, t': GuessType)
    ensures GetGuessStyle(GuessTypeName(t)) == GetGuessStyle(GuessTypeName(t')) <==> t == t'
  {
  }
}
