/**
 * The regular-expression fallback of `parseAddressSmart` (app.js:251-283).
 *
 * The four patterns are described group by group and matched over the words
 * of the normalized text. The contract of `Normalizer.Normalize` makes
 * normalized text space-canonical, with words separated by exactly one space
 * and no space at either end (hence no line terminator), and free of
 * upper-case ASCII letters. On such text every `\s+` of the patterns matches exactly one
 * separating space and `(.*?)` between two `\s+` spans whole words, so the
 * JavaScript search order (leftmost start, then shortest lazy group, then
 * alternatives left to right) becomes the word-level search below.
 */
module Fallback {
  import opened JsText

  /** One capture group of a fallback pattern. */
  datatype Group =
    | Lazy                              // `(.*?)`: the fewest words that let the rest match
    | Marker(alts: seq<seq<string>>)    // `(a|b c)`: alternatives, as words, tried in order
    | Tail                              // `(.*)` at the end: every remaining word

  const ApThon := Marker([["ap"], ["thon"]])
  const XaPhuong := Marker([["xa"], ["phuong"]])
  const PhuongXa := Marker([["phuong"], ["xa"]])
  const HuyenQuan := Marker([["huyen"], ["quan"]])
  const QuanHuyen := Marker([["quan"], ["huyen"]])
  const TinhThanhPho := Marker([["tinh"], ["thanh", "pho"]])

  /**
   * The patterns of app.js:252-264, in order. Patterns 2 to 4 start with a
   * marker not preceded by `\s+`, so their match may start inside a word:
   * the marker is then a suffix of that word. No first-marker alternative is a
   * suffix of another, so within one word at most one alternative can start.
   */
  const Patterns: seq<seq<Group>> := [
    [Lazy, ApThon, Lazy, XaPhuong, Lazy, HuyenQuan, Lazy, TinhThanhPho, Tail],
    [XaPhuong, Lazy, HuyenQuan, Lazy, TinhThanhPho, Tail],
    [HuyenQuan, Lazy, TinhThanhPho, Tail],
    [PhuongXa, Lazy, QuanHuyen, Lazy, Tail]
  ]

  /** Does the group capture one of its own alternatives (for a marker) or anything (otherwise)? */
  predicate CapturedBy(g: Group, c: string) {
    g.Marker? ==> exists a :: a in g.alts && c == Join(a, ' ')
  }

  predicate Fits(gs: seq<Group>, caps: seq<string>) {
    |caps| == |gs| && forall k :: 0 <= k < |gs| ==> CapturedBy(gs[k], caps[k])
  }

  /*
   * What a match is, independently of the order in which it is searched for:
   * `Decomposes(gs, ws, i, caps)` says that the groups `gs`, started at word
   * `i`, can capture `caps`. A lazy group takes one or more consecutive words,
   * a marker group one of its alternatives found at that word, the tail group
   * every remaining word; each group starts where the previous one ended.
   */
  ghost predicate Decomposes(gs: seq<Group>, ws: seq<string>, i: nat, caps: seq<string>)
    decreases |gs|, 1
  {
    if gs == [] then caps == []
    else match gs[0]
      case Tail => |gs| == 1 && i < |ws| && caps == [Join(ws[i..], ' ')]
      case Lazy => exists n :: LazyAt(gs[1..], ws, i, n, caps)
      case Marker(alts) => exists a :: MarkerAt(gs[0], a, gs[1..], ws, i, caps)
  }

  /** A lazy group takes the `n` words from `i` and `rest` captures the remaining captures after them. */
  ghost predicate LazyAt(rest: seq<Group>, ws: seq<string>, i: nat, n: nat, caps: seq<string>)
    decreases |rest| + 1, 0
  {
    1 <= n && i + n <= |ws| && caps != [] && caps[0] == Join(ws[i..i + n], ' ')
    && Decomposes(rest, ws, i + n, caps[1..])
  }

  /** Marker `g` takes its alternative `a`, found at word `i`, and `rest` matches after it. */
  ghost predicate MarkerAt(g: Group, a: nat, rest: seq<Group>, ws: seq<string>, i: nat, caps: seq<string>)
    decreases |rest| + 1, 0
  {
    g.Marker? && a < |g.alts| && i + |g.alts[a]| <= |ws| && ws[i..i + |g.alts[a]|] == g.alts[a]
    && caps != [] && caps[0] == Join(g.alts[a], ' ')
    && Decomposes(rest, ws, i + |g.alts[a]|, caps[1..])
  }

  /*
   * The decomposition a backtracking regular-expression engine returns.
   * Backtracking commits the first group to its first choice after which the
   * remaining groups can match at all (the fewest words for a lazy group, the
   * earliest alternative for a marker) and then chooses the remaining
   * captures the same way, group by group.
   */
  ghost predicate Preferred(gs: seq<Group>, ws: seq<string>, i: nat, caps: seq<string>)
    decreases |gs|, 1
  {
    if gs == [] then caps == []
    else match gs[0]
      case Tail => |gs| == 1 && i < |ws| && caps == [Join(ws[i..], ' ')]
      case Lazy => exists n :: PreferredLazy(gs[1..], ws, i, n, caps)
      case Marker(alts) => exists a :: PreferredMarker(gs[0], a, gs[1..], ws, i, caps)
  }

  /** The lazy group takes `n` words, no smaller count lets `rest` match, and `rest` is matched the preferred way. */
  ghost predicate PreferredLazy(rest: seq<Group>, ws: seq<string>, i: nat, n: nat, caps: seq<string>)
    decreases |rest| + 1, 0
  {
    LazyAt(rest, ws, i, n, caps) && Preferred(rest, ws, i + n, caps[1..])
    && forall m: nat, c :: m < n ==> !LazyAt(rest, ws, i, m, c)
  }

  /** The marker takes alternative `a`, no earlier alternative lets `rest` match, and `rest` is matched the preferred way. */
  ghost predicate PreferredMarker(g: Group, a: nat, rest: seq<Group>, ws: seq<string>, i: nat, caps: seq<string>)
    decreases |rest| + 1, 0
  {
    MarkerAt(g, a, rest, ws, i, caps) && Preferred(rest, ws, i + |g.alts[a]|, caps[1..])
    && forall b: nat, c :: b < a ==> !MarkerAt(g, b, rest, ws, i, c)
  }

  /** The preferred decomposition is a decomposition. */
  lemma PreferredDecomposes(gs: seq<Group>, ws: seq<string>, i: nat, caps: seq<string>)
    requires Preferred(gs, ws, i, caps)
    ensures Decomposes(gs, ws, i, caps)
  {
    if gs != [] {
      match gs[0]
      case Tail =>
      case Lazy =>
        var n: nat :| PreferredLazy(gs[1..], ws, i, n, caps);
        assert LazyAt(gs[1..], ws, i, n, caps);
      case Marker(alts) =>
        var a: nat :| PreferredMarker(gs[0], a, gs[1..], ws, i, caps);
        assert MarkerAt(gs[0], a, gs[1..], ws, i, caps);
    }
  }

  /** At most one capture list is preferred: the search order leaves no choice. */
  lemma {:induction false} PreferredUnique(gs: seq<Group>, ws: seq<string>, i: nat, c1: seq<string>, c2: seq<string>)
    requires Preferred(gs, ws, i, c1) && Preferred(gs, ws, i, c2)
    ensures c1 == c2
    decreases |gs|
  {
    if gs != [] {
      match gs[0]
      case Tail =>
      case Lazy =>
        var n1: nat :| PreferredLazy(gs[1..], ws, i, n1, c1);
        var n2: nat :| PreferredLazy(gs[1..], ws, i, n2, c2);
        if n1 < n2 {
          assert false;
        } else if n2 < n1 {
          assert false;
        } else {
          PreferredUnique(gs[1..], ws, i + n1, c1[1..], c2[1..]);
          assert c1 == [c1[0]] + c1[1..];
          assert c2 == [c2[0]] + c2[1..];
        }
      case Marker(alts) =>
        var a1: nat :| PreferredMarker(gs[0], a1, gs[1..], ws, i, c1);
        var a2: nat :| PreferredMarker(gs[0], a2, gs[1..], ws, i, c2);
        if a1 < a2 {
          assert false;
        } else if a2 < a1 {
          assert false;
        } else {
          PreferredUnique(gs[1..], ws, i + |alts[a1]|, c1[1..], c2[1..]);
          assert c1 == [c1[0]] + c1[1..];
          assert c2 == [c2[0]] + c2[1..];
        }
    }
  }

  /**
   * The groups `gs` matched from word `i` on; one capture per group. The
   * result is a decomposition, and there is none when no match is found.
   */
  function MatchGroups(gs: seq<Group>, ws: seq<string>, i: nat): (r: Option<seq<string>>)
    requires i <= |ws|
    decreases |gs|, 2, 0
    ensures r.Some? ==> Fits(gs, r.value) && Decomposes(gs, ws, i, r.value)
    ensures r.Some? ==> Preferred(gs, ws, i, r.value)
    ensures r.None? ==> forall caps :: !Decomposes(gs, ws, i, caps)
  {
    if gs == [] then Some([])
    else match gs[0]
      case Tail => if i < |ws| && |gs| == 1 then Some([Join(ws[i..], ' ')]) else None
      case Lazy =>
        var r := LazyFrom(gs[1..], ws, i, 1);
        if r.Some? then LazyPreferred(gs, ws, i, r.value); r else r
      case Marker(alts) =>
        var r := MarkerFrom(gs[0], 0, gs[1..], ws, i);
        if r.Some? then MarkerPreferred(gs, ws, i, r.value); r else r
  }

  /**
   * The lazy group takes `m` words, the fewest from `n` on after which `rest`
   * can match, and `rest` is matched the preferred way.
   */
  ghost predicate LazyChoice(rest: seq<Group>, ws: seq<string>, i: nat, n: nat, m: nat, caps: seq<string>) {
    n <= m && LazyAt(rest, ws, i, m, caps) && Preferred(rest, ws, i + m, caps[1..])
    && forall m', c :: n <= m' < m ==> !LazyAt(rest, ws, i, m', c)
  }

  /**
   * The marker `g` takes alternative `b`, the first from `a` on after which
   * `rest` can match, and `rest` is matched the preferred way.
   */
  ghost predicate MarkerChoice(g: Group, a: nat, b: nat, rest: seq<Group>, ws: seq<string>, i: nat, caps: seq<string>) {
    a <= b && MarkerAt(g, b, rest, ws, i, caps) && Preferred(rest, ws, i + |g.alts[b]|, caps[1..])
    && forall b', c :: a <= b' < b ==> !MarkerAt(g, b', rest, ws, i, c)
  }

  lemma LazyPreferred(gs: seq<Group>, ws: seq<string>, i: nat, caps: seq<string>)
    requires gs != [] && gs[0] == Lazy
    requires exists m :: LazyChoice(gs[1..], ws, i, 1, m, caps)
    ensures Preferred(gs, ws, i, caps)
  {
    var m :| LazyChoice(gs[1..], ws, i, 1, m, caps);
    assert PreferredLazy(gs[1..], ws, i, m, caps);
  }

  lemma MarkerPreferred(gs: seq<Group>, ws: seq<string>, i: nat, caps: seq<string>)
    requires gs != [] && gs[0].Marker?
    requires exists b :: MarkerChoice(gs[0], 0, b, gs[1..], ws, i, caps)
    ensures Preferred(gs, ws, i, caps)
  {
    var b :| MarkerChoice(gs[0], 0, b, gs[1..], ws, i, caps);
    assert PreferredMarker(gs[0], b, gs[1..], ws, i, caps);
  }

  /**
   * `(.*?)` followed by `rest`: try `n`, `n + 1`, ... words. The result
   * takes the fewest words, from `n` on, after which `rest` can match; none
   * means no such number works.
   */
  function LazyFrom(rest: seq<Group>, ws: seq<string>, i: nat, n: nat): (r: Option<seq<string>>)
    requires i <= |ws| && n >= 1
    decreases |rest| + 1, 1, |ws| - i - n
    ensures r.Some? ==> Fits([Lazy] + rest, r.value)
    ensures r.Some? ==> exists m :: LazyChoice(rest, ws, i, n, m, r.value)
    ensures r.None? ==> forall m, caps :: n <= m ==> !LazyAt(rest, ws, i, m, caps)
  {
    if i + n > |ws| then None
    else match MatchGroups(rest, ws, i + n)
      case Some(caps) =>
        assert forall k :: 1 <= k < 1 + |rest| ==> ([Lazy] + rest)[k] == rest[k - 1];
        var r := [Join(ws[i..i + n], ' ')] + caps;
        assert r[1..] == caps;
        assert LazyAt(rest, ws, i, n, r);
        assert LazyChoice(rest, ws, i, n, n, r);
        Some(r)
      case None =>
        assert forall caps :: !LazyAt(rest, ws, i, n, caps);
        var r := LazyFrom(rest, ws, i, n + 1);
        if r.Some? then LazyChoiceStep(rest, ws, i, n, n + 1, r.value); r else r
  }

  /** A count `n` that does not work leaves the choice from `n + 1` the choice from `n`. */
  lemma LazyChoiceStep(rest: seq<Group>, ws: seq<string>, i: nat, n: nat, next: nat, caps: seq<string>)
    requires next == n + 1 && forall c :: !LazyAt(rest, ws, i, n, c)
    requires exists m :: LazyChoice(rest, ws, i, next, m, caps)
    ensures exists m :: LazyChoice(rest, ws, i, n, m, caps)
  {
    var m :| LazyChoice(rest, ws, i, next, m, caps);
    assert LazyChoice(rest, ws, i, n, m, caps);
  }

  /**
   * A marker group followed by `rest`: try the alternatives from the `a`-th
   * on. The result takes the first of them after which `rest` can match;
   * none means none of them works.
   */
  function MarkerFrom(g: Group, a: nat, rest: seq<Group>, ws: seq<string>, i: nat): (r: Option<seq<string>>)
    requires g.Marker? && i <= |ws|
    decreases |rest| + 1, 1, |g.alts| - a
    ensures r.Some? ==> Fits([g] + rest, r.value)
    ensures r.Some? ==> exists b :: MarkerChoice(g, a, b, rest, ws, i, r.value)
    ensures r.None? ==> forall b, caps :: a <= b ==> !MarkerAt(g, b, rest, ws, i, caps)
  {
    if a >= |g.alts| then None
    else
      var alt := g.alts[a];
      if i + |alt| <= |ws| && ws[i..i + |alt|] == alt then
        match MatchGroups(rest, ws, i + |alt|)
        case Some(caps) =>
          assert forall k :: 1 <= k < 1 + |rest| ==> ([g] + rest)[k] == rest[k - 1];
          var r := [Join(alt, ' ')] + caps;
          assert r[1..] == caps;
          assert MarkerAt(g, a, rest, ws, i, r);
          assert MarkerChoice(g, a, a, rest, ws, i, r);
          Some(r)
        case None =>
          assert forall caps :: !MarkerAt(g, a, rest, ws, i, caps);
          var r := MarkerFrom(g, a + 1, rest, ws, i);
          if r.Some? then MarkerChoiceStep(g, a, a + 1, rest, ws, i, r.value); r else r
      else
        var r := MarkerFrom(g, a + 1, rest, ws, i);
        if r.Some? then MarkerChoiceStep(g, a, a + 1, rest, ws, i, r.value); r else r
  }

  /** An alternative `a` that does not work leaves the choice from `a + 1` the choice from `a`. */
  lemma MarkerChoiceStep(g: Group, a: nat, next: nat, rest: seq<Group>, ws: seq<string>, i: nat, caps: seq<string>)
    requires next == a + 1 && forall c :: !MarkerAt(g, a, rest, ws, i, c)
    requires exists b :: MarkerChoice(g, next, b, rest, ws, i, caps)
    ensures exists b :: MarkerChoice(g, a, b, rest, ws, i, caps)
  {
    var b :| MarkerChoice(g, next, b, rest, ws, i, caps);
    assert MarkerChoice(g, a, b, rest, ws, i, caps);
  }

  predicate EndsWith(w: string, suffix: string) {
    |suffix| <= |w| && w[|w| - |suffix|..] == suffix
  }

  /**
   * A leading marker started inside word `t`: the first word of alternative
   * `a` is a suffix of word `t`, its other words follow, and `rest` matches
   * after them.
   */
  ghost predicate SuffixMarkerIn(g: Group, a: nat, rest: seq<Group>, ws: seq<string>, t: nat, caps: seq<string>) {
    g.Marker? && a < |g.alts| && g.alts[a] != [] && t < |ws| && EndsWith(ws[t], g.alts[a][0])
    && t + |g.alts[a]| <= |ws| && ws[t + 1..t + |g.alts[a]|] == g.alts[a][1..]
    && caps != [] && caps[0] == Join(g.alts[a], ' ')
    && Decomposes(rest, ws, t + |g.alts[a]|, caps[1..])
  }

  /** The pattern `[g] + rest` has a match that starts in word `t`. */
  ghost predicate StartsIn(g: Group, rest: seq<Group>, ws: seq<string>, t: nat, caps: seq<string>) {
    exists a :: SuffixMarkerIn(g, a, rest, ws, t, caps)
  }

  /**
   * The leading marker `g` takes alternative `b` inside word `t`, the first
   * from `a` on after which `rest` can match, and `rest` is matched the
   * preferred way.
   */
  ghost predicate SuffixChoice(g: Group, a: nat, b: nat, rest: seq<Group>, ws: seq<string>, t: nat, caps: seq<string>) {
    a <= b && SuffixMarkerIn(g, b, rest, ws, t, caps) && Preferred(rest, ws, t + |g.alts[b]|, caps[1..])
    && forall b', c :: a <= b' < b ==> !SuffixMarkerIn(g, b', rest, ws, t, c)
  }

  /** An alternative `a` that does not start a match in word `t` leaves the choice from `a + 1` the choice from `a`. */
  lemma SuffixChoiceStep(g: Group, a: nat, next: nat, rest: seq<Group>, ws: seq<string>, t: nat, caps: seq<string>)
    requires next == a + 1 && forall c :: !SuffixMarkerIn(g, a, rest, ws, t, c)
    requires exists b :: SuffixChoice(g, next, b, rest, ws, t, caps)
    ensures exists b :: SuffixChoice(g, a, b, rest, ws, t, caps)
  {
    var b :| SuffixChoice(g, next, b, rest, ws, t, caps);
    assert SuffixChoice(g, a, b, rest, ws, t, caps);
  }

  /** A leading marker may start inside word `t`: its first word is a suffix of word `t`. */
  function SuffixMarkerAt(g: Group, a: nat, rest: seq<Group>, ws: seq<string>, t: nat): (r: Option<seq<string>>)
    requires g.Marker? && t < |ws|
    decreases |g.alts| - a
    ensures r.Some? ==> Fits([g] + rest, r.value)
    ensures r.Some? ==> exists b :: SuffixChoice(g, a, b, rest, ws, t, r.value)
    ensures r.None? ==> forall b, caps :: a <= b ==> !SuffixMarkerIn(g, b, rest, ws, t, caps)
  {
    if a >= |g.alts| then None
    else
      var alt := g.alts[a];
      if alt != [] && EndsWith(ws[t], alt[0]) && t + |alt| <= |ws| && ws[t + 1..t + |alt|] == alt[1..] then
        match MatchGroups(rest, ws, t + |alt|)
        case Some(caps) =>
          assert forall k :: 1 <= k < 1 + |rest| ==> ([g] + rest)[k] == rest[k - 1];
          var r := [Join(alt, ' ')] + caps;
          assert r[1..] == caps;
          assert SuffixMarkerIn(g, a, rest, ws, t, r);
          assert SuffixChoice(g, a, a, rest, ws, t, r);
          Some(r)
        case None =>
          assert forall caps :: !SuffixMarkerIn(g, a, rest, ws, t, caps);
          var r := SuffixMarkerAt(g, a + 1, rest, ws, t);
          if r.Some? then SuffixChoiceStep(g, a, a + 1, rest, ws, t, r.value); r else r
      else
        assert forall caps :: !SuffixMarkerIn(g, a, rest, ws, t, caps);
        var r := SuffixMarkerAt(g, a + 1, rest, ws, t);
        if r.Some? then SuffixChoiceStep(g, a, a + 1, rest, ws, t, r.value); r else r
  }

  /**
   * The match starts in word `u`, the first word from `t` on in which any
   * match starts, with the leading marker's alternative `b` and the rest
   * matched the preferred way.
   */
  ghost predicate SearchChoice(g: Group, rest: seq<Group>, ws: seq<string>, t: nat, u: nat, b: nat, caps: seq<string>) {
    t <= u < |ws| && SuffixChoice(g, 0, b, rest, ws, u, caps)
    && forall v, c :: t <= v < u ==> !StartsIn(g, rest, ws, v, c)
  }

  lemma SearchChoiceHere(g: Group, rest: seq<Group>, ws: seq<string>, t: nat, caps: seq<string>)
    requires t < |ws| && exists b :: SuffixChoice(g, 0, b, rest, ws, t, caps)
    ensures exists u, b :: SearchChoice(g, rest, ws, t, u, b, caps)
  {
    var b :| SuffixChoice(g, 0, b, rest, ws, t, caps);
    assert SearchChoice(g, rest, ws, t, t, b, caps);
  }

  /** A word `t` in which no match starts leaves the choice from `t + 1` the choice from `t`. */
  lemma SearchChoiceStep(g: Group, rest: seq<Group>, ws: seq<string>, t: nat, next: nat, caps: seq<string>)
    requires next == t + 1 && forall c :: !StartsIn(g, rest, ws, t, c)
    requires exists u, b :: SearchChoice(g, rest, ws, next, u, b, caps)
    ensures exists u, b :: SearchChoice(g, rest, ws, t, u, b, caps)
  {
    var u, b :| SearchChoice(g, rest, ws, next, u, b, caps);
    assert SearchChoice(g, rest, ws, t, u, b, caps);
  }

  /**
   * The unanchored search: the leftmost word from `t` on where the pattern
   * matches. No earlier word admits a match; none means no word does.
   */
  function SearchFrom(g: Group, rest: seq<Group>, ws: seq<string>, t: nat): (r: Option<seq<string>>)
    requires g.Marker?
    decreases |ws| - t
    ensures r.Some? ==> Fits([g] + rest, r.value)
    ensures r.Some? ==> exists u :: (t <= u < |ws| && StartsIn(g, rest, ws, u, r.value)
      && forall v, caps :: t <= v < u ==> !StartsIn(g, rest, ws, v, caps))
    ensures r.Some? ==> exists u, b :: SearchChoice(g, rest, ws, t, u, b, r.value)
    ensures r.None? ==> forall v, caps :: t <= v ==> !StartsIn(g, rest, ws, v, caps)
  {
    if t >= |ws| then None
    else match SuffixMarkerAt(g, 0, rest, ws, t)
      case Some(caps) =>
        assert StartsIn(g, rest, ws, t, caps);
        SearchChoiceHere(g, rest, ws, t, caps);
        Some(caps)
      case None =>
        assert forall caps :: !StartsIn(g, rest, ws, t, caps);
        var r := SearchFrom(g, rest, ws, t + 1);
        if r.Some? then SearchChoiceStep(g, rest, ws, t, t + 1, r.value); r else r
  }

  /**
   * The captures `caps` are a match of pattern `p` in the words `ws`: a
   * pattern led by a marker may start in any word, any other pattern starts
   * at the first word.
   */
  ghost predicate Matches(p: seq<Group>, ws: seq<string>, caps: seq<string>) {
    if p == [] then caps == []
    else if p[0].Marker? then exists u :: 0 <= u < |ws| && StartsIn(p[0], p[1..], ws, u, caps)
    else Decomposes(p, ws, 0, caps)
  }

  /**
   * The captures `caps` are the match JavaScript's `match` returns for
   * pattern `p` in the words `ws`: the leftmost start, then the preferred
   * captures.
   */
  ghost predicate Selected(p: seq<Group>, ws: seq<string>, caps: seq<string>) {
    if p == [] then caps == []
    else if p[0].Marker? then exists u, b :: SearchChoice(p[0], p[1..], ws, 0, u, b, caps)
    else Preferred(p, ws, 0, caps)
  }

  /** `text.match(pattern)`: the captures of groups 1, 2, ... or `None` when there is no match at all. */
  function MatchPattern(p: seq<Group>, text: string): (r: Option<seq<string>>)
    ensures r.Some? ==> Fits(p, r.value) && Matches(p, Split(text, ' '), r.value)
    ensures r.Some? ==> Selected(p, Split(text, ' '), r.value)
    ensures r.None? ==> forall caps :: !Matches(p, Split(text, ' '), caps)
  {
    var ws := Split(text, ' ');
    if p == [] then Some([])
    else if p[0].Marker? then
      assert [p[0]] + p[1..] == p;
      SearchFrom(p[0], p[1..], ws, 0)
    else MatchGroups(p, ws, 0)
  }

  /** The match JavaScript returns is a match. */
  lemma SelectedMatches(p: seq<Group>, ws: seq<string>, caps: seq<string>)
    requires Selected(p, ws, caps)
    ensures Matches(p, ws, caps)
  {
    if p != [] {
      if p[0].Marker? {
        var u, b :| SearchChoice(p[0], p[1..], ws, 0, u, b, caps);
        assert StartsIn(p[0], p[1..], ws, u, caps);
      } else {
        PreferredDecomposes(p, ws, 0, caps);
      }
    }
  }

  /** At most one capture list is the one JavaScript returns. */
  lemma {:induction false} SelectedUnique(p: seq<Group>, ws: seq<string>, c1: seq<string>, c2: seq<string>)
    requires Selected(p, ws, c1) && Selected(p, ws, c2)
    ensures c1 == c2
  {
    if p != [] {
      if p[0].Marker? {
        var u1: nat, b1: nat :| SearchChoice(p[0], p[1..], ws, 0, u1, b1, c1);
        var u2: nat, b2: nat :| SearchChoice(p[0], p[1..], ws, 0, u2, b2, c2);
        if u1 < u2 {
          assert StartsIn(p[0], p[1..], ws, u1, c1);
          assert false;
        } else if u2 < u1 {
          assert StartsIn(p[0], p[1..], ws, u2, c2);
          assert false;
        } else if b1 < b2 {
          assert false;
        } else if b2 < b1 {
          assert false;
        } else {
          PreferredUnique(p[1..], ws, u1 + |p[0].alts[b1]|, c1[1..], c2[1..]);
          assert c1 == [c1[0]] + c1[1..];
          assert c2 == [c2[0]] + c2[1..];
        }
      } else {
        PreferredUnique(p, ws, 0, c1, c2);
      }
    }
  }

  /** `MatchPattern` returns exactly the match JavaScript returns, and nothing when there is none. */
  lemma MatchPatternSelected(p: seq<Group>, text: string, caps: seq<string>)
    ensures MatchPattern(p, text) == Some(caps) <==> Selected(p, Split(text, ' '), caps)
  {
    var ws := Split(text, ' ');
    if Selected(p, ws, caps) {
      SelectedMatches(p, ws, caps);
      SelectedUnique(p, ws, MatchPattern(p, text).value, caps);
    }
  }

  /** "phuong a quan c d e" as words, and the capture list JavaScript returns for it with the fourth pattern. */
  const ExampleWords: seq<string> := ["phuong", "a", "quan", "c", "d", "e"]
  const ExampleCaps: seq<string> := ["phuong", "a", "quan", "c", "d e"]

  /** After "quan", the district group takes "c" and the tail "d e". */
  lemma ExampleAfterDistrictMarker()
    ensures Preferred([Lazy, Tail], ExampleWords, 3, ["c", "d e"])
  {
    var ws := ExampleWords;
    assert Join(ws[4..], ' ') == "d e" by {
      assert ws[4..] == ["d", "e"];
      assert ws[5..] == ["e"];
    }
    assert Preferred([Tail], ws, 4, ["d e"]);
    assert PreferredLazy([Tail], ws, 3, 1, ["c", "d e"]) by {
      assert ws[3..4] == ["c"];
      assert ["c", "d e"][1..] == ["d e"];
    }
    assert [Lazy, Tail][1..] == [Tail];
  }

  /** From "quan" on, the district marker takes "quan" and the rest is matched as above. */
  lemma ExampleFromDistrictMarker()
    ensures Preferred([QuanHuyen, Lazy, Tail], ExampleWords, 2, ["quan", "c", "d e"])
  {
    var ws := ExampleWords;
    ExampleAfterDistrictMarker();
    PreferredDecomposes([Lazy, Tail], ws, 3, ["c", "d e"]);
    assert ws[2..3] == QuanHuyen.alts[0] == ["quan"];
    assert Join(QuanHuyen.alts[0], ' ') == "quan";
    assert ["quan", "c", "d e"][1..] == ["c", "d e"];
    assert MarkerAt(QuanHuyen, 0, [Lazy, Tail], ws, 2, ["quan", "c", "d e"]);
    assert PreferredMarker(QuanHuyen, 0, [Lazy, Tail], ws, 2, ["quan", "c", "d e"]);
    assert [QuanHuyen, Lazy, Tail][1..] == [Lazy, Tail];
  }

  /** After "phuong", the ward group takes "a" and the rest is matched as above. */
  lemma ExampleAfterWardMarker()
    ensures Preferred(Patterns[3][1..], ExampleWords, 1, ["a", "quan", "c", "d e"])
  {
    var ws := ExampleWords;
    ExampleFromDistrictMarker();
    PreferredDecomposes([QuanHuyen, Lazy, Tail], ws, 2, ["quan", "c", "d e"]);
    assert ws[1..2] == ["a"];
    assert ["a", "quan", "c", "d e"][1..] == ["quan", "c", "d e"];
    assert PreferredLazy([QuanHuyen, Lazy, Tail], ws, 1, 1, ["a", "quan", "c", "d e"]);
    assert Patterns[3][1..] == [Lazy, QuanHuyen, Lazy, Tail];
    assert Patterns[3][1..][1..] == [QuanHuyen, Lazy, Tail];
  }

  lemma ExampleSelected()
    ensures Selected(Patterns[3], ExampleWords, ExampleCaps)
  {
    var ws, caps, p := ExampleWords, ExampleCaps, Patterns[3];
    ExampleAfterWardMarker();
    assert caps[1..] == ["a", "quan", "c", "d e"];
    PreferredDecomposes(p[1..], ws, 1, caps[1..]);
    assert SuffixChoice(p[0], 0, 0, p[1..], ws, 0, caps);
    assert SearchChoice(p[0], p[1..], ws, 0, 0, 0, caps);
  }

  /** The district "c d" and the province "e" also decompose the words after the ward marker. */
  lemma ExampleOtherDecomposes()
    ensures Decomposes(Patterns[3][1..], ExampleWords, 1, ["a", "quan", "c d", "e"])
  {
    var ws, other := ExampleWords, ["a", "quan", "c d", "e"];
    assert Join(ws[5..], ' ') == "e" by { assert ws[5..] == ["e"]; }
    assert Join(ws[3..5], ' ') == "c d" by { assert ws[3..5] == ["c", "d"]; assert ws[3..5][1..] == ["d"]; }
    assert [Lazy, Tail][1..] == [Tail];
    assert LazyAt([Tail], ws, 3, 2, other[2..]) by { assert other[2..][1..] == other[3..]; }
    assert [QuanHuyen, Lazy, Tail][1..] == [Lazy, Tail];
    assert MarkerAt(QuanHuyen, 0, [Lazy, Tail], ws, 2, other[1..]) by {
      assert ws[2..3] == ["quan"];
      assert other[1..][1..] == other[2..];
    }
    assert Patterns[3][1..] == [Lazy, QuanHuyen, Lazy, Tail];
    assert Patterns[3][1..][1..] == [QuanHuyen, Lazy, Tail];
    assert LazyAt([QuanHuyen, Lazy, Tail], ws, 1, 1, other) by {
      assert ws[1..2] == ["a"];
    }
  }

  /**
   * On "phuong a quan c d e" the fourth pattern's second lazy group takes
   * the single word "c" and the tail takes "d e"; the split into "c d" and
   * "e" also decomposes the words but is not what JavaScript returns.
   */
  lemma LazyDistrictTakesFewestWords()
    ensures Selected(Patterns[3], ExampleWords, ExampleCaps)
    ensures Decomposes(Patterns[3][1..], ExampleWords, 1, ["a", "quan", "c d", "e"])
    ensures !Selected(Patterns[3], ExampleWords, ["phuong", "a", "quan", "c d", "e"])
  {
    ExampleSelected();
    ExampleOtherDecomposes();
    var other := ["phuong", "a", "quan", "c d", "e"];
    assert ExampleCaps != other by { assert ExampleCaps[3] != other[3]; }
    if Selected(Patterns[3], ExampleWords, other) {
      SelectedUnique(Patterns[3], ExampleWords, ExampleCaps, other);
    }
  }

  /** The slots `match[1]` to `match[5]` that app.js:267-279 reads; `match[5]` is `undefined` for a four-group pattern. */
  datatype Slots = Slots(m1: string, m2: string, m3: string, m4: string, m5: Option<string>)

  function SlotsOf(caps: seq<string>): Slots
    requires |caps| >= 4
  {
    Slots(caps[0], caps[1], caps[2], caps[3], if |caps| > 4 then Some(caps[4]) else None)
  }

  /** The first pattern, from the `k`-th on, that matches `text`, with its index. */
  function FirstMatchFrom(text: string, k: nat): (r: Option<(nat, Slots)>)
    decreases |Patterns| - k
    ensures r.Some? ==> k <= r.value.0 < |Patterns|
    ensures r.Some? ==> MatchPattern(Patterns[r.value.0], text).Some?
    ensures r.Some? ==> var caps := MatchPattern(Patterns[r.value.0], text).value;
                        |caps| >= 4 && r.value.1 == SlotsOf(caps)
    ensures r.Some? ==> forall j :: k <= j < r.value.0 ==> MatchPattern(Patterns[j], text).None?
    ensures r.None? ==> forall j :: k <= j < |Patterns| ==> MatchPattern(Patterns[j], text).None?
  {
    if k >= |Patterns| then None
    else match MatchPattern(Patterns[k], text)
      case Some(caps) =>
        assert |caps| == |Patterns[k]| >= 4;
        Some((k, SlotsOf(caps)))
      case None => FirstMatchFrom(text, k + 1)
  }

  /** The `for ... of regexPatterns` loop with its `break`: the first pattern that matches. */
  function FirstMatch(text: string): (r: Option<(nat, Slots)>)
    ensures r.Some? ==> r.value.0 < |Patterns| && MatchPattern(Patterns[r.value.0], text).Some?
    ensures r.Some? ==> r.value.1 == SlotsOf(MatchPattern(Patterns[r.value.0], text).value)
    ensures r.Some? ==> forall j :: 0 <= j < r.value.0 ==> MatchPattern(Patterns[j], text).None?
    ensures r.None? ==> forall j :: 0 <= j < |Patterns| ==> MatchPattern(Patterns[j], text).None?
  {
    FirstMatchFrom(text, 0)
  }

  predicate IsWardMarker(m: string) { m == "xa" || m == "phuong" }
  predicate IsDistrictMarker(m: string) { m == "huyen" || m == "quan" }
  predicate IsProvinceMarker(m: string) { m == "tinh" || m == "thanh pho" }

  /** What each marker group can capture. */
  lemma CapturedMarker(g: Group, c: string)
    requires g.Marker? && CapturedBy(g, c)
    ensures g == ApThon ==> c == "ap" || c == "thon"
    ensures g == XaPhuong || g == PhuongXa ==> IsWardMarker(c)
    ensures g == HuyenQuan || g == QuanHuyen ==> IsDistrictMarker(c)
    ensures g == TinhThanhPho ==> IsProvinceMarker(c)
  {
    assert Join(["thanh", "pho"], ' ') == "thanh pho";
  }

  /** The slots a fitting capture list of pattern `k` fills. */
  lemma PatternSlots(k: nat, caps: seq<string>)
    requires k < |Patterns| && Fits(Patterns[k], caps)
    ensures |caps| >= 4
    ensures var m := SlotsOf(caps);
      && (k == 0 ==> (m.m2 == "ap" || m.m2 == "thon") && IsWardMarker(m.m4) && m.m5.Some?)
      && (k == 1 ==> IsWardMarker(m.m1) && IsDistrictMarker(m.m3) && m.m5.Some? && IsProvinceMarker(m.m5.value))
      && (k == 2 ==> IsDistrictMarker(m.m1) && IsProvinceMarker(m.m3) && m.m5.None?)
      && (k == 3 ==> IsWardMarker(m.m1) && IsDistrictMarker(m.m3) && m.m5.Some?)
  {
    var p := Patterns[k];
    if k == 0 {
      CapturedMarker(p[1], caps[1]);
      CapturedMarker(p[3], caps[3]);
    } else if k == 1 {
      CapturedMarker(p[0], caps[0]);
      CapturedMarker(p[2], caps[2]);
      CapturedMarker(p[4], caps[4]);
    } else {
      CapturedMarker(p[0], caps[0]);
      CapturedMarker(p[2], caps[2]);
    }
  }

  /**
   * Which slot holds which marker word, pattern by pattern. Only pattern 4
   * puts the ward, district and province names where app.js:269-279 reads
   * them: pattern 1 puts the hamlet marker in slot 2 and the ward marker in
   * slot 4, pattern 2 the province marker in slot 5, pattern 3 the province
   * marker in slot 3.
   */
  lemma FirstMatchSlots(text: string, k: nat, m: Slots)
    requires FirstMatch(text) == Some((k, m))
    ensures k < 4
    ensures k == 0 ==> (m.m2 == "ap" || m.m2 == "thon") && IsWardMarker(m.m4) && m.m5.Some?
    ensures k == 1 ==> IsWardMarker(m.m1) && IsDistrictMarker(m.m3) && m.m5.Some? && IsProvinceMarker(m.m5.value)
    ensures k == 2 ==> IsDistrictMarker(m.m1) && IsProvinceMarker(m.m3) && m.m5.None?
    ensures k == 3 ==> IsWardMarker(m.m1) && IsDistrictMarker(m.m3) && m.m5.Some?
  {
    PatternSlots(k, MatchPattern(Patterns[k], text).value);
  }
}
