/** SQL LIKE patterns rewritten as Elasticsearch wildcard patterns, and exactly when the two agree. */
module LikePatterns {

  /** SQL LIKE without an escape character. */
  predicate Like(p: string, s: string)
    decreases |p| + |s|
  {
    if p == "" then s == ""
    else if p[0] == '%' then Like(p[1..], s) || (s != "" && Like(p, s[1..]))
    else s != "" && (p[0] == '_' || p[0] == s[0]) && Like(p[1..], s[1..])
  }

  /** A wildcard query: a backslash takes the next character literally, and itself at the very end. */
  predicate Wildcard(w: string, s: string)
    decreases |w| + |s|
  {
    if w == "" then s == ""
    else if w[0] == '*' then Wildcard(w[1..], s) || (s != "" && Wildcard(w, s[1..]))
    else if w[0] == '\\' && |w| > 1 then s != "" && w[1] == s[0] && Wildcard(w[2..], s[1..])
    else s != "" && (w[0] == '?' || w[0] == s[0]) && Wildcard(w[1..], s[1..])
  }

  /** `replace('%', '*').replace('_', '?')` */
  function ToWildcard(p: string): string {
    seq(|p|, i requires 0 <= i < |p| => if p[i] == '%' then '*' else if p[i] == '_' then '?' else p[i])
  }

  /** A backslash that is not the last character. */
  ghost predicate HasEscape(p: string) {
    exists i | 0 <= i < |p| - 1 :: p[i] == '\\'
  }

  ghost predicate Plain(p: string) {
    '*' !in p && '?' !in p && !HasEscape(p)
  }

  lemma {:induction false} LikeIsKept(p: string, s: string)
    requires !HasEscape(p) && Like(p, s)
    ensures Wildcard(ToWildcard(p), s)
    decreases |p| + |s|
  {
    if p != "" {
      assert ToWildcard(p)[1..] == ToWildcard(p[1..]);
      EscapeOfTail(p);
      if p[0] == '%' {
        if Like(p[1..], s) { LikeIsKept(p[1..], s); } else { LikeIsKept(p, s[1..]); }
      } else {
        LikeIsKept(p[1..], s[1..]);
      }
    }
  }

  lemma {:induction false} PlainIsExact(p: string, s: string)
    requires Plain(p)
    ensures Like(p, s) == Wildcard(ToWildcard(p), s)
    decreases |p| + |s|
  {
    if p != "" {
      assert ToWildcard(p)[1..] == ToWildcard(p[1..]);
      EscapeOfTail(p);
      if p[0] == '%' {
        PlainIsExact(p[1..], s);
      }
      if s != "" {
        PlainIsExact(if p[0] == '%' then p else p[1..], s[1..]);
      }
    }
  }

  lemma EscapeOfTail(p: string)
    requires p != ""
    ensures HasEscape(p) <==> (p[0] == '\\' && |p| > 1) || HasEscape(p[1..])
  {
    if HasEscape(p[1..]) {
      var i :| 0 <= i < |p[1..]| - 1 && p[1..][i] == '\\';
      assert p[i + 1] == '\\';
    }
    if HasEscape(p) {
      var i :| 0 <= i < |p| - 1 && p[i] == '\\';
      assert i > 0 ==> p[1..][i - 1] == '\\';
    }
  }

  // ----- A shortest text for a wildcard pattern tells the two apart

  function Least(w: string): string {
    if w == "" then ""
    else if w[0] == '*' then Least(w[1..])
    else if w[0] == '\\' && |w| > 1 then [w[1]] + Least(w[2..])
    else [if w[0] == '?' then 'a' else w[0]] + Least(w[1..])
  }

  lemma {:induction false} LeastMatches(w: string)
    ensures Wildcard(w, Least(w))
  {
    if w != "" {
      var rest := if w[0] == '\\' && |w| > 1 then w[2..] else w[1..];
      LeastMatches(rest);
      assert w[0] != '*' ==> Least(w)[1..] == Least(rest);
    }
  }

  function Count(s: string, c: char): nat {
    if s == "" then 0 else (if s[0] == c then 1 else 0) + Count(s[1..], c)
  }

  /** A text that is LIKE a pattern has every literal of the pattern. */
  lemma {:induction false} LikeKeepsLiterals(p: string, s: string, c: char)
    requires Like(p, s) && c != '%' && c != '_'
    ensures Count(s, c) >= Count(p, c)
    decreases |p| + |s|
  {
    if p != "" {
      if p[0] == '%' {
        if Like(p[1..], s) { LikeKeepsLiterals(p[1..], s, c); } else { LikeKeepsLiterals(p, s[1..], c); }
      } else {
        LikeKeepsLiterals(p[1..], s[1..], c);
      }
    }
  }

  lemma {:induction false} LeastLosesEscapes(w: string)
    ensures Count(Least(w), '\\') <= Count(w, '\\')
    ensures HasEscape(w) ==> Count(Least(w), '\\') < Count(w, '\\')
  {
    if w != "" {
      EscapeOfTail(w);
      if w[0] == '\\' && |w| > 1 {
        LeastLosesEscapes(w[2..]);
        assert w[1..][1..] == w[2..] && Least(w)[1..] == Least(w[2..]);
      } else {
        LeastLosesEscapes(w[1..]);
        assert w[0] != '*' ==> Least(w)[1..] == Least(w[1..]);
      }
    }
  }

  lemma {:induction false} LeastHasNoWildcards(w: string, c: char)
    requires !HasEscape(w) && c in {'*', '?'}
    ensures Count(Least(w), c) == 0
  {
    if w != "" {
      EscapeOfTail(w);
      LeastHasNoWildcards(w[1..], c);
      assert w[0] != '*' ==> Least(w)[1..] == Least(w[1..]);
    }
  }

  lemma {:induction false} CountPositive(p: string, c: char)
    requires c in p
    ensures Count(p, c) > 0
  {
    if p[0] != c {
      CountPositive(p[1..], c);
    }
  }

  lemma {:induction false} CountTranslated(p: string)
    ensures Count(ToWildcard(p), '\\') == Count(p, '\\')
  {
    if p != "" {
      assert ToWildcard(p)[1..] == ToWildcard(p[1..]);
      CountTranslated(p[1..]);
    }
  }

  lemma EscapeTranslated(p: string)
    ensures HasEscape(ToWildcard(p)) <==> HasEscape(p)
  {
    var w := ToWildcard(p);
    if HasEscape(p) {
      var i :| 0 <= i < |p| - 1 && p[i] == '\\';
      assert w[i] == '\\';
    }
    if HasEscape(w) {
      var i :| 0 <= i < |w| - 1 && w[i] == '\\';
      assert p[i] == '\\';
    }
  }

  lemma NotPlainDiffers(p: string)
    requires !Plain(p)
    ensures Wildcard(ToWildcard(p), Least(ToWildcard(p))) && !Like(p, Least(ToWildcard(p)))
  {
    var w := ToWildcard(p);
    var s := Least(w);
    LeastMatches(w);
    EscapeTranslated(p);
    if Like(p, s) {
      if HasEscape(p) {
        LeastLosesEscapes(w);
        CountTranslated(p);
        LikeKeepsLiterals(p, s, '\\');
      } else {
        var c := if '*' in p then '*' else '?';
        LeastHasNoWildcards(w, c);
        CountPositive(p, c);
        LikeKeepsLiterals(p, s, c);
      }
    }
  }

  /**
    The rewritten pattern matches exactly the texts LIKE accepts if and only if the LIKE pattern
    holds no `*` and no `?`, and no backslash before its last character.
   */
  lemma LikeIsExact(p: string)
    ensures (forall s :: Like(p, s) == Wildcard(ToWildcard(p), s)) <==> Plain(p)
  {
    if Plain(p) {
      forall s ensures Like(p, s) == Wildcard(ToWildcard(p), s) {
        PlainIsExact(p, s);
      }
    } else {
      NotPlainDiffers(p);
    }
  }

  // ----- Texts that are lost

  lemma {:induction false} LikeSelf(p: string)
    ensures Like(p, p)
  {
    if p != "" {
      LikeSelf(p[1..]);
      assert p[0] == '%' ==> Like(p, p[1..]);
    }
  }

  lemma {:induction false} LikeLength(p: string, s: string)
    requires '%' !in p && Like(p, s)
    ensures |s| == |p|
  {
    if p != "" {
      LikeLength(p[1..], s[1..]);
    }
  }

  lemma {:induction false} WildcardLength(w: string, s: string)
    requires '*' !in w && Wildcard(w, s)
    ensures |s| <= |w| && (HasEscape(w) ==> |s| < |w|)
  {
    if w != "" {
      EscapeOfTail(w);
      WildcardLength(if w[0] == '\\' && |w| > 1 then w[2..] else w[1..], s[1..]);
    }
  }

  /**
    Without the wildcards for any text, a rewritten pattern keeps every text LIKE accepts if and only
    if no backslash stands before another character; otherwise it loses every one of them.
   */
  lemma EscapeLosesTexts(p: string)
    requires '%' !in p && '*' !in p
    ensures (forall s | Like(p, s) :: Wildcard(ToWildcard(p), s)) <==> !HasEscape(p)
    ensures HasEscape(p) ==> forall s | Like(p, s) :: !Wildcard(ToWildcard(p), s)
  {
    if HasEscape(p) {
      forall s | Like(p, s) ensures !Wildcard(ToWildcard(p), s) {
        EscapeLosesText(p, s);
      }
      var s := LostText(p);
    } else {
      forall s | Like(p, s) ensures Wildcard(ToWildcard(p), s) {
        LikeIsKept(p, s);
      }
    }
  }

  lemma EscapeLosesText(p: string, s: string)
    requires '%' !in p && '*' !in p && HasEscape(p) && Like(p, s)
    ensures !Wildcard(ToWildcard(p), s)
  {
    var w := ToWildcard(p);
    EscapeTranslated(p);
    LikeLength(p, s);
    assert '*' !in w;
    if Wildcard(w, s) {
      WildcardLength(w, s);
    }
  }

  lemma LostText(p: string) returns (s: string)
    requires '%' !in p && '*' !in p && HasEscape(p)
    ensures Like(p, s) && !Wildcard(ToWildcard(p), s)
  {
    s := p;
    LikeSelf(p);
    EscapeLosesText(p, s);
  }

  // ----- Deciding whether texts are lost

  /** The rewritten pattern keeps every text LIKE accepts. */
  ghost predicate Kept(p: string) {
    forall s | Like(p, s) :: Wildcard(ToWildcard(p), s)
  }

  lemma NoEscapeIsKept(p: string)
    requires !HasEscape(p)
    ensures Kept(p)
  {
    forall s | Like(p, s) ensures Wildcard(ToWildcard(p), s) {
      LikeIsKept(p, s);
    }
  }

  function Run(z: char, n: nat): (s: string)
    ensures |s| == n && forall i | 0 <= i < n :: s[i] == z
  {
    if n == 0 then "" else [z] + Run(z, n - 1)
  }

  /** A text LIKE accepts: `z` for each `_`, and for each `%` as many as `runs` says at its place. */
  function Instance(p: string, z: char, runs: seq<nat>): string
    requires |runs| == |p|
  {
    if p == "" then ""
    else
      (if p[0] == '%' then Run(z, runs[0]) else if p[0] == '_' then [z] else [p[0]]) + Instance(p[1..], z, runs[1..])
  }

  /** A character that neither the pattern nor its rewriting holds, nor has a meaning in them. */
  predicate Foreign(p: string, z: char) {
    z !in p && z !in {'%', '_', '*', '?', '\\'}
  }

  lemma {:induction false} InstanceIsLiked(p: string, z: char, runs: seq<nat>)
    requires |runs| == |p|
    ensures Like(p, Instance(p, z, runs))
    decreases |p|
  {
    if p != "" {
      var rest := Instance(p[1..], z, runs[1..]);
      InstanceIsLiked(p[1..], z, runs[1..]);
      if p[0] == '%' {
        StarTakesRun(p, z, runs[0], rest);
      } else {
        assert Instance(p, z, runs)[1..] == rest;
      }
    }
  }

  lemma {:induction false} StarTakesRun(p: string, z: char, n: nat, s: string)
    requires p != "" && p[0] == '%' && Like(p[1..], s)
    ensures Like(p, Run(z, n) + s)
  {
    if n > 0 {
      StarTakesRun(p, z, n - 1, s);
      assert (Run(z, n) + s)[1..] == Run(z, n - 1) + s;
    } else {
      assert Run(z, n) + s == s;
    }
  }

  /** `s` is `t` with any characters in place of some of its `z`. */
  ghost predicate Covers(t: string, s: string, z: char) {
    |t| == |s| && forall i | 0 <= i < |t| :: t[i] == z || t[i] == s[i]
  }

  lemma CoversJoined(t: string, s: string, t': string, s': string, z: char)
    requires Covers(t, s, z) && Covers(t', s', z)
    ensures Covers(t + t', s + s', z)
  {
  }

  /** Every accepted text is covered by an instance. */
  lemma {:induction false} LikedIsCovered(p: string, s: string, z: char) returns (runs: seq<nat>)
    requires Like(p, s)
    ensures |runs| == |p| && Covers(Instance(p, z, runs), s, z)
    decreases |p| + |s|
  {
    if p == "" {
      runs := [];
    } else if p[0] == '%' && !Like(p[1..], s) {
      var rest := LikedIsCovered(p, s[1..], z);
      runs := [rest[0] + 1] + rest[1..];
      assert runs[1..] == rest[1..];
      assert Instance(p, z, runs) == [z] + Instance(p, z, rest);
      CoversJoined([z], [s[0]], Instance(p, z, rest), s[1..], z);
      assert s == [s[0]] + s[1..];
    } else if p[0] == '%' {
      var rest := LikedIsCovered(p[1..], s, z);
      runs := [0] + rest;
      assert runs[1..] == rest;
      assert Instance(p, z, runs) == Instance(p[1..], z, rest);
    } else {
      var rest := LikedIsCovered(p[1..], s[1..], z);
      runs := [0] + rest;
      assert runs[1..] == rest;
      CoversJoined([if p[0] == '_' then z else p[0]], [s[0]], Instance(p[1..], z, rest), s[1..], z);
      assert s == [s[0]] + s[1..];
    }
  }

  /** A wildcard pattern without `z` does not look at what stands there. */
  lemma {:induction false} CoveredIsMatched(w: string, t: string, s: string, z: char)
    requires z !in w && Covers(t, s, z) && Wildcard(w, t)
    ensures Wildcard(w, s)
    decreases |w| + |t|
  {
    if w != "" {
      if w[0] == '*' {
        if Wildcard(w[1..], t) { CoveredIsMatched(w[1..], t, s, z); } else { CoveredIsMatched(w, t[1..], s[1..], z); }
      } else if w[0] == '\\' && |w| > 1 {
        assert w[1] in w;
        CoveredIsMatched(w[2..], t[1..], s[1..], z);
      } else {
        assert w[0] in w;
        CoveredIsMatched(w[1..], t[1..], s[1..], z);
      }
    }
  }

  lemma TailOfJoined(a: string, r: string, b: string)
    requires a != ""
    ensures (a + r + b)[0] == a[0] && (a + r + b)[1..] == a[1..] + r + b
  {
  }

  /** A run longer than the pattern meets a star in it, which takes one more. */
  lemma {:induction false} LongRunGrows(w: string, a: string, z: char, n: nat, b: string)
    requires z !in w && z != '?' && n > |w| && Wildcard(w, a + Run(z, n) + b)
    ensures Wildcard(w, a + Run(z, n + 1) + b)
    decreases |w| + |a|
  {
    var t, longer := a + Run(z, n) + b, a + Run(z, n + 1) + b;
    if a == "" {
      assert t == Run(z, n) + b && longer == Run(z, n + 1) + b && longer[1..] == t;
      if w[0] != '*' {
        assert t[0] == z && w[0] in w;
        assert t[1..] == "" + Run(z, n - 1) + b;
        LongRunGrows(w[1..], "", z, n - 1, b);
        assert longer[1..] == "" + Run(z, n) + b;
      }
    } else {
      TailOfJoined(a, Run(z, n), b);
      TailOfJoined(a, Run(z, n + 1), b);
      if w[0] == '*' {
        if Wildcard(w[1..], t) { LongRunGrows(w[1..], a, z, n, b); } else { LongRunGrows(w, a[1..], z, n, b); }
      } else {
        LongRunGrows(if w[0] == '\\' && |w| > 1 then w[2..] else w[1..], a[1..], z, n, b);
      }
    }
  }

  function Sum(runs: seq<nat>): nat {
    if runs == [] then 0 else runs[0] + Sum(runs[1..])
  }

  lemma {:induction false} SumShrinks(runs: seq<nat>, i: nat)
    requires i < |runs| && runs[i] > 0
    ensures Sum(runs[i := runs[i] - 1]) < Sum(runs)
  {
    var less := runs[i := runs[i] - 1];
    if i == 0 {
      assert less[1..] == runs[1..];
    } else {
      SumShrinks(runs[1..], i - 1);
      assert less[1..] == runs[1..][i - 1 := runs[1..][i - 1] - 1];
    }
  }

  lemma {:induction false} InstanceSplit(p: string, z: char, runs: seq<nat>, i: nat)
    requires |runs| == |p| && i < |p| && p[i] == '%'
    ensures Instance(p, z, runs)
         == Instance(p[..i], z, runs[..i]) + Run(z, runs[i]) + Instance(p[i + 1..], z, runs[i + 1..])
  {
    if i > 0 {
      InstanceSplit(p[1..], z, runs[1..], i - 1);
      assert p[..i][1..] == p[1..][..i - 1] && runs[..i][1..] == runs[1..][..i - 1];
      assert p[1..][i..] == p[i + 1..] && runs[1..][i..] == runs[i + 1..];
    }
  }

  /** No run is longer than this. */
  ghost predicate AtMost(runs: seq<nat>, bound: nat) {
    forall i | 0 <= i < |runs| :: runs[i] <= bound
  }

  /** If all instances with short runs are matched, so are all others. */
  lemma {:induction false} LongRunsFollow(p: string, w: string, z: char, runs: seq<nat>)
    requires z !in w && z != '?' && |runs| == |p|
    requires forall short: seq<nat> | |short| == |p| && AtMost(short, |w| + 1) :: Wildcard(w, Instance(p, z, short))
    ensures Wildcard(w, Instance(p, z, runs))
    decreases Sum(runs)
  {
    if i :| 0 <= i < |runs| && runs[i] > |w| + 1 {
      var less := runs[i := runs[i] - 1];
      SumShrinks(runs, i);
      LongRunsFollow(p, w, z, less);
      LongerRun(p, w, z, less, i);
      assert less[i := less[i] + 1] == runs;
    }
  }

  lemma LongerRun(p: string, w: string, z: char, runs: seq<nat>, i: nat)
    requires z !in w && z != '?' && |runs| == |p| && i < |p| && runs[i] > |w| && Wildcard(w, Instance(p, z, runs))
    ensures Wildcard(w, Instance(p, z, runs[i := runs[i] + 1]))
  {
    var longer := runs[i := runs[i] + 1];
    if p[i] == '%' {
      InstanceSplit(p, z, runs, i);
      InstanceSplit(p, z, longer, i);
      assert longer[..i] == runs[..i] && longer[i + 1..] == runs[i + 1..];
      LongRunGrows(w, Instance(p[..i], z, runs[..i]), z, runs[i], Instance(p[i + 1..], z, runs[i + 1..]));
    } else {
      UnusedRun(p, z, runs, longer, i);
    }
  }

  lemma {:induction false} UnusedRun(p: string, z: char, runs: seq<nat>, other: seq<nat>, i: nat)
    requires |runs| == |other| == |p| && i < |p| && p[i] != '%' && other == runs[i := other[i]]
    ensures Instance(p, z, runs) == Instance(p, z, other)
  {
    if i == 0 {
      assert runs[1..] == other[1..];
    } else {
      UnusedRun(p[1..], z, runs[1..], other[1..], i - 1);
    }
  }

  /**
    Whether the rewritten pattern keeps every text LIKE accepts is decided by finitely many texts:
    the pattern with one foreign character for each `_`, and for each `%` with runs of it that are
    at most one longer than the pattern.
   */
  lemma KeptIsDecided(p: string, z: char)
    requires Foreign(p, z)
    ensures Kept(p) <==> forall runs: seq<nat> | |runs| == |p| && AtMost(runs, |p| + 1) ::
                           Wildcard(ToWildcard(p), Instance(p, z, runs))
  {
    var w := ToWildcard(p);
    assert z !in w;
    if Kept(p) {
      forall runs: seq<nat> | |runs| == |p| ensures Wildcard(w, Instance(p, z, runs)) {
        InstanceIsLiked(p, z, runs);
      }
    }
    if forall runs: seq<nat> | |runs| == |p| && AtMost(runs, |p| + 1) :: Wildcard(w, Instance(p, z, runs)) {
      forall s | Like(p, s) ensures Wildcard(w, s) {
        var runs := LikedIsCovered(p, s, z);
        LongRunsFollow(p, w, z, runs);
        CoveredIsMatched(w, Instance(p, z, runs), s, z);
      }
    }
  }

  // ----- A LIKE whose pattern is the field

  ghost predicate Only(s: string, cs: set<char>) {
    forall i | 0 <= i < |s| :: s[i] in cs
  }

  /** Only wildcards, of either language; at least one of them for any text and at most one for one character. */
  ghost predicate AnyText(p: string) {
    && Only(p, {'%', '*', '_', '?'})
    && ('%' in p || '*' in p)
    && Count(p, '_') + Count(p, '?') <= 1
  }

  lemma {:induction false} StarsMatch(w: string, s: string)
    requires Only(w, {'*', '?'}) && Count(w, '?') <= |s|
    requires '*' in w || Count(w, '?') == |s|
    ensures Wildcard(w, s)
    decreases |w| + |s|
  {
    if w != "" && w[0] == '*' {
      if s != "" && Count(w, '?') < |s| { StarsMatch(w, s[1..]); } else { StarsMatch(w[1..], s); }
    } else if w != "" {
      StarsMatch(w[1..], s[1..]);
    }
  }

  /** A pattern that matches a run of a character it does not hold is made of wildcards. */
  lemma {:induction false} RunMatched(w: string, s: string)
    requires (forall i | 0 <= i < |w| :: w[i] != '%') && Only(s, {'%'}) && Wildcard(w, s)
    ensures Only(w, {'*', '?'}) && Count(w, '?') <= |s|
    ensures '*' in w || Count(w, '?') == |s|
    decreases |w| + |s|
  {
    if w != "" && w[0] == '*' {
      if Wildcard(w[1..], s) { RunMatched(w[1..], s); } else { RunMatched(w, s[1..]); }
      assert w == [w[0]] + w[1..];
    } else if w != "" {
      assert s[0] == '%';
      RunMatched(w[1..], s[1..]);
      assert w == [w[0]] + w[1..];
    }
  }

  lemma {:induction false} AnyTextTranslated(p: string)
    ensures AnyText(p) <==>
            Only(ToWildcard(p), {'*', '?'}) && '*' in ToWildcard(p) && Count(ToWildcard(p), '?') <= 1
  {
    var w := ToWildcard(p);
    assert forall i | 0 <= i < |p| :: w[i] in w && p[i] in p;
    QuestionsTranslated(p);
  }

  lemma {:induction false} QuestionsTranslated(p: string)
    ensures Count(ToWildcard(p), '?') == Count(p, '_') + Count(p, '?')
  {
    if p != "" {
      assert ToWildcard(p)[1..] == ToWildcard(p[1..]);
      QuestionsTranslated(p[1..]);
    }
  }

  /**
    `p LIKE s` is compiled as if it were `s LIKE p`. That keeps every s for which it holds if and
    only if p holds nothing but wildcards, of which one is for any text and at most one for one character.
   */
  lemma ReversedLikeIsKept(p: string)
    ensures (forall s | Like(s, p) :: Wildcard(ToWildcard(p), s)) <==> AnyText(p)
  {
    if AnyText(p) {
      forall s | Like(s, p) ensures Wildcard(ToWildcard(p), s) {
        KeptReversed(p, s);
      }
    } else {
      var s := LostReversed(p);
    }
  }

  lemma KeptReversed(p: string, s: string)
    requires AnyText(p) && Like(s, p)
    ensures Wildcard(ToWildcard(p), s)
  {
    AnyTextTranslated(p);
    assert s != "";
    StarsMatch(ToWildcard(p), s);
  }

  lemma LostReversed(p: string) returns (s: string)
    requires !AnyText(p)
    ensures Like(s, p) && !Wildcard(ToWildcard(p), s)
  {
    var w := ToWildcard(p);
    AnyTextTranslated(p);
    s := if Wildcard(w, "%") then "%%" else "%";
    RunAccepts(s, p);
    if Wildcard(w, s) {
      RunMatched(w, "%");
      RunMatched(w, "%%");
    }
  }

  lemma {:induction false} RunAccepts(s: string, p: string)
    requires s in {"%", "%%"}
    ensures Like(s, p)
    decreases |s| + |p|
  {
    if p != "" {
      RunAccepts(s, p[1..]);
    } else if s == "%%" {
      RunAccepts("%", p);
      assert "%%"[1..] == "%";
    } else {
      assert "%"[1..] == "";
    }
  }
}
