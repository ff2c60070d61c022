/**
 * The pure parts of the profile sidebar: `escapeHtml`, four global
 * replacements applied in turn, and the badges and active flag of a
 * profile card.
 */
module Sidebar {
  import opened Optional
  import opened Text
  import Profiles

  // =====================================================================
  // escapeHtml

  /** `escapeHtml`: `&` first, then `<`, `>` and `"`. */
  function EscapeHtml(s: string): string {
    ReplaceAll(ReplaceAll(ReplaceAll(ReplaceAll(s, "&", "&amp;"), "<", "&lt;"), ">", "&gt;"), "\"", "&quot;")
  }

  /** The entity a character is written as, for the four characters that have one. */
  function EscapeChar(c: char): string {
    match c
    case '&' => "&amp;"
    case '<' => "&lt;"
    case '>' => "&gt;"
    case '"' => "&quot;"
    case _ => [c]
  }

  /** The reference reading of an escaper: every character replaced by its own escape. */
  function EscapeRef(s: string): string
    decreases |s|
  {
    if s == [] then [] else EscapeChar(s[0]) + EscapeRef(s[1..])
  }

  /** The characters `escapeHtml` handles. */
  predicate Special(c: char) {
    c == '&' || c == '<' || c == '>' || c == '"'
  }

  /** When each special character is handled by `escapeHtml` (1 to 4); 0 for the rest. */
  function Rank(c: char): (r: nat)
    ensures r <= 4 && (r > 0 <==> Special(c))
  {
    match c
    case '&' => 1
    case '<' => 2
    case '>' => 3
    case '"' => 4
    case _ => 0
  }

  /** The character replaced by pass `k` of `escapeHtml`. */
  function EscPass(k: nat): (c: char)
    requires 1 <= k <= 4
    ensures Rank(c) == k
  {
    if k == 1 then '&' else if k == 2 then '<' else if k == 3 then '>' else '"'
  }

  /** What a character has become after the first `k` passes of `escapeHtml`. */
  function EscStage(k: nat, c: char): string {
    if 1 <= Rank(c) <= k then EscapeChar(c) else [c]
  }

  /** A text after the first `k` passes, built character by character. */
  function EscChunks(s: string, k: nat): string
    decreases |s|
  {
    if s == [] then [] else EscStage(k, s[0]) + EscChunks(s[1..], k)
  }

  /** Pass `k` either escapes a character for the first time or leaves its text untouched. */
  lemma EscStep(k: nat, c: char)
    requires 1 <= k <= 4
    ensures
      || (EscStage(k - 1, c) == [EscPass(k)] && EscStage(k, c) == EscapeChar(EscPass(k)))
      || (EscStage(k - 1, c) == EscStage(k, c) && EscPass(k) !in EscStage(k - 1, c))
  {
  }

  /** Pass `k` of `escapeHtml`, applied to the text the earlier passes produced. */
  lemma {:induction false} EscPassChunks(s: string, k: nat)
    requires 1 <= k <= 4
    ensures ReplaceAll(EscChunks(s, k - 1), [EscPass(k)], EscapeChar(EscPass(k))) == EscChunks(s, k)
    decreases |s|
  {
    var pat, rep := [EscPass(k)], EscapeChar(EscPass(k));
    if s == [] {
      ReplaceAllShort([], pat, rep);
    } else {
      EscPassChunks(s[1..], k);
      EscStep(k, s[0]);
      var w, rest := EscStage(k - 1, s[0]), EscChunks(s[1..], k - 1);
      if w == pat {
        ReplaceAllHead(rest, pat, rep);
      } else {
        ReplaceAllSkips(w, rest, pat, rep);
      }
    }
  }

  lemma {:induction false} EscChunksZero(s: string)
    ensures EscChunks(s, 0) == s
    decreases |s|
  {
    if s != [] {
      EscChunksZero(s[1..]);
      assert s == [s[0]] + s[1..];
    }
  }

  lemma {:induction false} EscChunksFour(s: string)
    ensures EscChunks(s, 4) == EscapeRef(s)
    decreases |s|
  {
    if s != [] {
      EscChunksFour(s[1..]);
      assert EscStage(4, s[0]) == EscapeChar(s[0]);
    }
  }

  /** `escapeHtml` escapes every character on its own, as the reference does. */
  lemma EscapeHtmlIsReference(s: string)
    ensures EscapeHtml(s) == EscapeRef(s)
  {
    EscChunksZero(s);
    EscPassChunks(s, 1);
    EscPassChunks(s, 2);
    EscPassChunks(s, 3);
    EscPassChunks(s, 4);
    EscChunksFour(s);
  }

  /** The reference escaper never emits `<`, `>` or `"`. */
  lemma {:induction false} EscapeRefNoMarkup(s: string)
    ensures forall i :: 0 <= i < |EscapeRef(s)| ==> EscapeRef(s)[i] !in {'<', '>', '"'}
    decreases |s|
  {
    if s != [] {
      EscapeRefNoMarkup(s[1..]);
      var w, rest := EscapeChar(s[0]), EscapeRef(s[1..]);
      forall i | 0 <= i < |w + rest| ensures (w + rest)[i] !in {'<', '>', '"'} {
        if i >= |w| {
          assert (w + rest)[i] == rest[i - |w|];
        }
      }
    }
  }

  /** `escapeHtml` output holds no `<`, `>` or `"`. */
  lemma EscapeHtmlNoMarkup(s: string)
    ensures forall i :: 0 <= i < |EscapeHtml(s)| ==> EscapeHtml(s)[i] !in {'<', '>', '"'}
  {
    EscapeHtmlIsReference(s);
    EscapeRefNoMarkup(s);
  }

  /** Position `i` of `t` starts one of the four entities. */
  predicate EntityAt(t: string, i: nat)
    requires i <= |t|
  {
    StartsWith(t[i..], "&amp;") || StartsWith(t[i..], "&lt;")
    || StartsWith(t[i..], "&gt;") || StartsWith(t[i..], "&quot;")
  }

  /** Every `&` of `t` begins an entity. */
  predicate AmpsBeginEntities(t: string) {
    forall i :: 0 <= i < |t| && t[i] == '&' ==> EntityAt(t, i)
  }

  lemma AmpsBeginEntitiesAppend(a: string, b: string)
    requires AmpsBeginEntities(a) && AmpsBeginEntities(b)
    ensures AmpsBeginEntities(a + b)
  {
    var t := a + b;
    forall i | 0 <= i < |t| && t[i] == '&' ensures EntityAt(t, i) {
      if i < |a| {
        assert t[i..] == a[i..] + b;
        assert a[i] == '&';
      } else {
        assert t[i..] == b[i - |a|..];
        assert b[i - |a|] == '&';
      }
    }
  }

  lemma EscapeCharAmps(c: char)
    ensures AmpsBeginEntities(EscapeChar(c))
  {
    var w := EscapeChar(c);
    if Special(c) {
      assert w[0] == '&' && '&' !in w[1..];
      assert w[0..] == w;
    }
  }

  lemma {:induction false} EscapeRefAmps(s: string)
    ensures AmpsBeginEntities(EscapeRef(s))
    decreases |s|
  {
    if s != [] {
      EscapeRefAmps(s[1..]);
      EscapeCharAmps(s[0]);
      AmpsBeginEntitiesAppend(EscapeChar(s[0]), EscapeRef(s[1..]));
    }
  }

  /** Because `&` goes first, every `&` of the output begins an entity. */
  lemma EscapeHtmlAmps(s: string)
    ensures AmpsBeginEntities(EscapeHtml(s))
  {
    EscapeHtmlIsReference(s);
    EscapeRefAmps(s);
  }

  /** Text with none of `& < > "` comes out unchanged, and only such text does. */
  lemma {:induction false} EscapeRefIdentity(s: string)
    ensures EscapeRef(s) == s <==> forall i :: 0 <= i < |s| ==> !Special(s[i])
    decreases |s|
  {
    if s != [] {
      EscapeRefIdentity(s[1..]);
      assert s == [s[0]] + s[1..];
      if Special(s[0]) {
        EscapeRefLength(s[1..]);
        assert |EscapeRef(s)| > |s|;
      } else {
        assert (forall i :: 0 <= i < |s| ==> !Special(s[i])) <==>
               (forall i :: 0 <= i < |s[1..]| ==> !Special(s[1..][i]));
      }
    }
  }

  lemma {:induction false} EscapeRefLength(s: string)
    ensures |EscapeRef(s)| >= |s|
    decreases |s|
  {
    if s != [] {
      EscapeRefLength(s[1..]);
    }
  }

  lemma EscapeHtmlIdentity(s: string)
    ensures EscapeHtml(s) == s <==> forall i :: 0 <= i < |s| ==> !Special(s[i])
  {
    EscapeHtmlIsReference(s);
    EscapeRefIdentity(s);
  }

  // =====================================================================
  // Undoing the escape

  /** Replacing the entities back, `&amp;` last. */
  function Unescape(t: string): string {
    ReplaceAll(ReplaceAll(ReplaceAll(ReplaceAll(t, "&lt;", "<"), "&gt;", ">"), "&quot;", "\""), "&amp;", "&")
  }

  /** When each special character is restored by `Unescape` (1 to 4); 0 for the rest. */
  function UnRank(c: char): (r: nat)
    ensures r <= 4 && (r > 0 <==> Special(c))
  {
    match c
    case '<' => 1
    case '>' => 2
    case '"' => 3
    case '&' => 4
    case _ => 0
  }

  /** The character restored by pass `k` of `Unescape`. */
  function UnPass(k: nat): (c: char)
    requires 1 <= k <= 4
    ensures UnRank(c) == k && Special(c)
  {
    if k == 1 then '<' else if k == 2 then '>' else if k == 3 then '"' else '&'
  }

  /** What an escaped character has become after the first `k` passes of `Unescape`. */
  function UnStage(k: nat, c: char): string {
    if 1 <= UnRank(c) <= k then [c] else EscapeChar(c)
  }

  function UnChunks(s: string, k: nat): string
    decreases |s|
  {
    if s == [] then [] else UnStage(k, s[0]) + UnChunks(s[1..], k)
  }

  /**
   * A piece of text that an entity pattern cannot match from inside: its only
   * possible `&` is its first character, and then the next character already
   * differs from the pattern's.
   */
  predicate Inert(w: string, pat: string) {
    && w != [] && |pat| >= 2 && pat[0] == '&'
    && '&' !in w[1..]
    && (w[0] == '&' ==> |w| >= 2 && w[1] != pat[1])
  }

  /** An inert piece followed by anything does not start with the pattern. */
  lemma InertHead(w: string, r: string, pat: string)
    requires Inert(w, pat) && |w + r| >= |pat|
    ensures (w + r)[..|pat|] != pat
  {
    var h := (w + r)[..|pat|];
    if w[0] == '&' {
      assert h[1] == w[1];
    } else {
      assert h[0] == w[0];
    }
  }

  lemma HeadTail(w: string, x: string)
    requires w != []
    ensures (w + x)[0] == w[0] && (w + x)[1..] == w[1..] + x
    ensures [w[0]] + (w[1..] + x) == w + x
  {
    assert w == [w[0]] + w[1..];
  }

  /** Replacing over an inert piece leaves the piece and goes on after it. */
  lemma InertPass(w: string, r: string, pat: string, rep: string)
    requires Inert(w, pat)
    ensures ReplaceAll(w + r, pat, rep) == w + ReplaceAll(r, pat, rep)
  {
    if |w + r| < |pat| {
      ReplaceAllShort(w + r, pat, rep);
      ReplaceAllShort(r, pat, rep);
    } else {
      InertHead(w, r, pat);
      ReplaceAllMiss(w + r, pat, rep);
      HeadTail(w, r);
      ReplaceAllSkips(w[1..], r, pat, rep);
      HeadTail(w, ReplaceAll(r, pat, rep));
    }
  }

  /** Pass `k` of `Unescape` either restores a character or leaves its text untouched. */
  lemma UnStep(k: nat, c: char)
    requires 1 <= k <= 4
    ensures
      || (UnStage(k - 1, c) == EscapeChar(UnPass(k)) && UnStage(k, c) == [UnPass(k)])
      || (UnStage(k - 1, c) == UnStage(k, c) && Inert(UnStage(k - 1, c), EscapeChar(UnPass(k))))
  {
    var w := UnStage(k - 1, c);
    if UnRank(c) != k && Special(c) && UnRank(c) > k - 1 {
      assert w == EscapeChar(c);
      assert w[1] != EscapeChar(UnPass(k))[1];
    }
  }

  lemma {:induction false} UnPassChunks(s: string, k: nat)
    requires 1 <= k <= 4
    ensures ReplaceAll(UnChunks(s, k - 1), EscapeChar(UnPass(k)), [UnPass(k)]) == UnChunks(s, k)
    decreases |s|
  {
    var pat, rep := EscapeChar(UnPass(k)), [UnPass(k)];
    if s == [] {
      ReplaceAllShort([], pat, rep);
    } else {
      UnPassChunks(s[1..], k);
      UnStep(k, s[0]);
      var w, rest := UnStage(k - 1, s[0]), UnChunks(s[1..], k - 1);
      if w == pat {
        ReplaceAllHead(rest, pat, rep);
      } else {
        InertPass(w, rest, pat, rep);
      }
    }
  }

  lemma {:induction false} UnChunksEnds(s: string)
    ensures UnChunks(s, 0) == EscapeRef(s)
    ensures UnChunks(s, 4) == s
    decreases |s|
  {
    if s != [] {
      UnChunksEnds(s[1..]);
      assert UnStage(0, s[0]) == EscapeChar(s[0]);
      assert UnStage(4, s[0]) == [s[0]];
      assert s == [s[0]] + s[1..];
    }
  }

  /** Replacing the four entities back, with `&amp;` last, recovers the input. */
  lemma UnescapeEscape(s: string)
    ensures Unescape(EscapeHtml(s)) == s
  {
    EscapeHtmlIsReference(s);
    UnChunksEnds(s);
    UnPassChunks(s, 1);
    UnPassChunks(s, 2);
    UnPassChunks(s, 3);
    UnPassChunks(s, 4);
  }

  // =====================================================================
  // Profile cards

  /** The badges on a profile card: `SSH` for a truthy alias, `Token` when tokens are on. */
  function Badges(p: Profiles.Profile): (r: seq<string>)
    ensures "SSH" in r <==> Truthy(p.sshHost)
    ensures "Token" in r <==> p.useToken == Some(true)
    ensures |r| <= 2 && (|r| == 2 ==> r == ["SSH", "Token"])
  {
    (if Truthy(p.sshHost) then ["SSH"] else []) + (if p.useToken == Some(true) then ["Token"] else [])
  }

  /** A card is highlighted when its id is the active id; an absent active id matches nothing. */
  function IsActive(p: Profiles.Profile, activeId: Option<string>): (r: bool)
    ensures r <==> activeId.Some? && activeId.value == p.id
  {
    activeId == Some(p.id)
  }

  /**
   * Under unique ids, the highlighted card of a profile with a non-empty id is
   * exactly the profile `getActiveProfile` returns.
   */
  lemma ActiveCardIsActiveProfile(s: Profiles.Store, p: Profiles.Profile)
    requires Profiles.UniqueIds(s.profiles) && p in s.profiles && p.id != ""
    ensures IsActive(p, Profiles.GetActiveProfileId(s)) <==> Profiles.GetActiveProfile(s) == Some(p)
  {
    var k :| 0 <= k < |s.profiles| && s.profiles[k] == p;
    if IsActive(p, s.active) {
      assert Profiles.HasId(s.profiles, p.id);
      var j := Profiles.FindIndex(s.profiles, p.id).value;
      assert j == k;
    }
  }

  /** Under unique ids, at most one card of the list is highlighted. */
  lemma AtMostOneActive(ps: seq<Profiles.Profile>, activeId: Option<string>, a: nat, b: nat)
    requires Profiles.UniqueIds(ps) && a < |ps| && b < |ps| && a != b
    ensures !(IsActive(ps[a], activeId) && IsActive(ps[b], activeId))
  {
    if a > b {
      assert ps[b].id != ps[a].id;
    }
  }
}
