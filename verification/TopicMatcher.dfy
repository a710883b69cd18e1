/** The pointer-walking matcher of mqtt_client_common.c. */
module TopicMatcher {
  import opened TopicSpec

  ghost predicate AcceptedText(filter: string, topic: string) {
    Accepted(Levels(filter), Levels(topic))
  }

  // One lemma for each way the walk advances, on what is left of the two strings.

  lemma FirstLevel(s: string)
    requires s != "" && s[0] != '/'
    ensures Levels(s) == [[s[0]] + Levels(s[1..])[0]] + Levels(s[1..])[1..]
  {
  }

  lemma ValidRest(f: seq<string>, g: seq<string>)
    requires ValidLevels(f) && |g| == |f| >= 1 && g[1..] == f[1..] && IsLiteral(g[0])
    ensures ValidLevels(g)
  {
    forall i | 0 <= i < |g| ensures IsLiteral(g[i]) || g[i] == "+" || (g[i] == "#" && i == |g| - 1) {
      if i > 0 { assert g[i] == g[1..][i - 1] == f[i]; }
    }
  }

  lemma StepLiteral(f: string, t: string)
    requires f != "" && t != "" && f[0] == t[0] && f[0] != '/' && f[0] != '+' && f[0] != '#' && ValidFilter(f)
    ensures ValidFilter(f[1..]) && (f[1..] != "" ==> f[1] != '+' && f[1] != '#')
    ensures AcceptedText(f, t) <==> AcceptedText(f[1..], t[1..])
  {
    FirstLevel(f);
    FirstLevel(t);
    var x, y := Levels(f[1..])[0], Levels(t[1..])[0];
    assert f[0] in Levels(f)[0];
    assert IsLiteral(Levels(f)[0]);
    assert forall c :: c in x ==> c in Levels(f)[0];
    ValidRest(Levels(f), Levels(f[1..]));
    assert ([f[0]] + x < [t[0]] + y) <==> x < y by { PrefixTail(f[0], x, y); }
    assert ([f[0]] + x == [t[0]] + y) <==> x == y by { PrefixTail(f[0], x, y); }
    SwapFirst(Levels(f), Levels(t), x, y);
    assert Levels(f[1..]) == [x] + Levels(f)[1..];
    assert Levels(t[1..]) == [y] + Levels(t)[1..];
  }

  lemma PrefixTail(c: char, x: string, y: string)
    ensures [c] + x < [c] + y <==> x < y
    ensures [c] + x == [c] + y <==> x == y
  {
    assert ([c] + x)[1..] == x && ([c] + y)[1..] == y;
  }

  lemma StepSeparator(f: string, t: string)
    requires f != "" && t != "" && f[0] == t[0] == '/' && ValidFilter(f)
    ensures ValidFilter(f[1..])
    ensures AcceptedText(f, t) <==> AcceptedText(f[1..], t[1..])
  {
    assert Levels(f) == [""] + Levels(f[1..]) && Levels(t) == [""] + Levels(t[1..]);
    DropLevel(Levels(f), Levels(t));
    assert Levels(f)[1..] == Levels(f[1..]) && Levels(t)[1..] == Levels(t[1..]);
    forall i | 0 <= i < |Levels(f[1..])| ensures Levels(f[1..])[i] == Levels(f)[i + 1] {}
  }

  lemma AfterPlus(f: string)
    requires f != "" && f[0] == '+' && ValidFilter(f)
    ensures Levels(f)[0] == "+" && Levels(f[1..]) == [""] + Levels(f)[1..]
    ensures ValidFilter(f[1..]) && (f[1..] != "" ==> f[1] == '/')
  {
    FirstLevel(f);
    assert '+' in Levels(f)[0];
    assert Levels(f)[0] != "#" by { assert Levels(f)[0][0] == '+'; }
    assert Levels(f)[0] == "+";
    assert Levels(f[1..])[0] == "" by { assert |Levels(f)[0]| == 1 + |Levels(f[1..])[0]|; }
    ValidRest(Levels(f), Levels(f[1..]));
  }

  /** The single-level wildcard against an empty level: only the filter advances. */
  lemma StepPlusEmpty(f: string, t: string)
    requires f != "" && t != "" && f[0] == '+' && t[0] == '/' && ValidFilter(f)
    ensures ValidFilter(f[1..]) && (f[1..] != "" ==> f[1] == '/')
    ensures AcceptedText(f, t) <==> AcceptedText(f[1..], t)
  {
    AfterPlus(f);
    EmptyLevelUnderPlus(Levels(f), Levels(t));
  }

  lemma EmptyLevelUnderPlus(f: seq<string>, t: seq<string>)
    requires |f| >= 1 && |t| >= 2 && f[0] == "+" && t[0] == ""
    ensures Accepted(f, t) <==> Accepted([""] + f[1..], t)
  {
    var g := [""] + f[1..];
    assert g[1..] == f[1..];
    if |f| >= 2 {
      DropLevel(f, t);
      DropLevel(g, t);
    }
  }

  lemma SkipLevel(t: string, k: nat)
    requires k <= |t| && (forall i :: 0 <= i < k ==> t[i] != '/') && (k == |t| || t[k] == '/')
    ensures Levels(t)[0] == t[..k] && Levels(t[k..]) == [""] + Levels(t)[1..]
  {
    if k > 0 {
      SkipLevel(t[1..], k - 1);
      assert t[1..][k - 1..] == t[k..];
      assert t[..k] == [t[0]] + t[1..][..k - 1];
    } else {
      assert t[0..] == t;
    }
  }

  /** The single-level wildcard against a level of `k` characters. */
  lemma StepPlusLevel(f: string, t: string, k: nat)
    requires f != "" && f[0] == '+' && ValidFilter(f)
    requires 0 < k <= |t| && (forall i :: 0 <= i < k ==> t[i] != '/') && (k == |t| || t[k] == '/')
    ensures ValidFilter(f[1..]) && (f[1..] != "" ==> f[1] == '/')
    ensures AcceptedText(f, t) <==> AcceptedText(f[1..], t[k..])
  {
    AfterPlus(f);
    SkipLevel(t, k);
    LevelUnderPlus(Levels(f), Levels(t));
  }

  lemma LevelUnderPlus(f: seq<string>, t: seq<string>)
    requires |f| >= 1 && |t| >= 1 && f[0] == "+" && t[0] != ""
    ensures Accepted(f, t) <==> Accepted([""] + f[1..], [""] + t[1..])
  {
    var g, u := [""] + f[1..], [""] + t[1..];
    assert g[1..] == f[1..] && u[1..] == t[1..];
    if |f| >= 2 && |t| >= 2 {
      DropLevel(f, t);
      DropLevel(g, u);
    }
  }

  lemma HashIsLast(f: string)
    requires f != "" && f[0] == '#' && ValidFilter(f)
    ensures f == "#" && Levels(f) == ["#"]
  {
    FirstLevel(f);
    assert '#' in Levels(f)[0];
    assert Levels(f)[0] != "+" by { assert Levels(f)[0][0] == '#'; }
    assert Levels(f)[0] == "#" && |Levels(f)| == 1;
    assert |Levels(f)[0]| == 1 + |Levels(f[1..])[0]|;
  }

  lemma HashTakesAll(f: string, t: string)
    requires f != "" && f[0] == '#' && ValidFilter(f)
    ensures AcceptedText(f, t) && f[1..] == "" && AcceptedText("", "") && ValidFilter("")
  {
    HashIsLast(f);
    assert Levels("") == [""] && Matches([""], [""]);
  }

  lemma FirstCharacter(s: string)
    ensures Levels(s)[0] != "" ==> s != "" && s[0] == Levels(s)[0][0]
    ensures s == "" <==> Levels(s) == [""]
    ensures s != "" && s[0] != '/' ==> Levels(s)[0] != "" && Levels(s)[0][0] == s[0]
    ensures s != "" && s[0] == '/' ==> Levels(s)[0] == "" && |Levels(s)| >= 2
  {
  }

  /** The verdict when the walk stops: the filter is used up, the topic is used up, or the
      next two characters do not go together. */
  lemma Stopped(f: string, t: string)
    requires ValidFilter(f)
    requires f == "" || t == "" ||
             (t[0] == '/' && f[0] != '/' && f[0] != '+') || (f[0] != '+' && f[0] != '#' && f[0] != t[0])
    ensures f == "" ==> (AcceptedText(f, t) <==> t == "")
    ensures f != "" ==> (AcceptedText(f, t) <==> f[0] == '#' || (|f| > 1 && f[1] == '#') || f[0] == '+')
  {
    FirstCharacter(f);
    FirstCharacter(t);
    var u := Levels(t);
    assert u == [u[0]] + u[1..];
    if f == "" {
      assert Levels(f) == [""] && [""][1..] == [];
      assert Matches([""], u) <==> u[0] == "" && Matches([], u[1..]);
      assert !HashOverMatch([""], u) && !PlusOverMatch([""], u);
    } else if f[0] == '#' {
      HashIsLast(f);
    } else if f[0] == '+' {
      AfterPlus(f);
      assert Levels(f) == ["+"] + Levels(f)[1..];
      assert |Levels(f)| > 1 ==> PlusOverMatch(Levels(f), u);
      assert |Levels(f)| == 1 ==> Matches(Levels(f), u);
    } else if f[0] == '/' {
      StoppedAtSeparator(f, t);
    }
  }

  lemma StoppedAtSeparator(f: string, t: string)
    requires ValidFilter(f) && f != "" && f[0] == '/' && (t == "" || t[0] != '/')
    ensures AcceptedText(f, t) <==> |f| > 1 && f[1] == '#'
  {
    var rest := Levels(f[1..]);
    assert Levels(f) == [""] + rest && Levels(f)[1..] == rest;
    FirstCharacter(f[1..]);
    FirstCharacter(t);
    assert ValidFilter(f[1..]) by {
      forall i | 0 <= i < |rest| ensures rest[i] == Levels(f)[i + 1] {}
    }
    if |f| > 1 && f[1] == '#' {
      HashIsLast(f[1..]);
      assert rest == ["#"];
      assert t == "" ==> Matches(Levels(f), Levels(t));
      assert t != "" ==> HashOverMatch(Levels(f), Levels(t));
    } else {
      assert rest != ["#"];
      assert |rest| == 1 ==> rest == [rest[0]];
      var u := Levels(t);
      assert t == "" ==> u[1..] == [] && !Matches(rest, u[1..]);
      assert t != "" ==> !LevelMatches(Levels(f)[0], u[0]);
      assert !Matches(Levels(f), u);
    }
  }

  /** Between two filter characters the walk has kept the verdict, stands at a level start in
      the topic whenever it does in the filter, and never faces a wildcard inside a level. */
  ghost predicate Aligned(filter: string, topic: string, f: nat, n: nat) {
    f <= |filter| && n <= |topic| && ValidFilter(filter[f..]) &&
    (AcceptedText(filter, topic) <==> AcceptedText(filter[f..], topic[n..])) &&
    (f == 0 ==> n == 0) &&
    (f > 0 && filter[f - 1] == '/' ==> n > 0 && topic[n - 1] == '/') &&
    (f > 0 && f < |filter| && (filter[f] == '+' || filter[f] == '#') ==> filter[f - 1] == '/')
  }

  lemma AlignedAtStart(filter: string, topic: string)
    requires ValidFilter(filter)
    ensures Aligned(filter, topic, 0, 0)
  {
    assert filter[0..] == filter && topic[0..] == topic;
  }

  /** The advance of both pointers over one pair of characters; `n` is where the topic pointer
      stood when the pair was compared, `n'` where the skipping of `+` or `#` has taken it. */
  lemma Advance(filter: string, topic: string, f: nat, n: nat, n': nat)
    requires Aligned(filter, topic, f, n) && f < |filter| && n <= n' < |topic|
    requires filter[f] == '+' ==>
               (forall i :: n <= i <= n' ==> topic[i] != '/') && (n' + 1 == |topic| || topic[n' + 1] == '/')
    requires filter[f] == '#' ==> n' + 1 == |topic|
    requires filter[f] != '+' && filter[f] != '#' ==> n' == n && filter[f] == topic[n]
    ensures Aligned(filter, topic, f + 1, n' + 1)
  {
    hide AcceptedText, ValidFilter, Levels;
    var rest, t := filter[f..], topic[n..];
    assert rest[1..] == filter[f + 1..] && t[n' + 1 - n..] == topic[n' + 1..];
    if filter[f] == '+' {
      StepPlusLevel(rest, t, n' + 1 - n);
    } else if filter[f] == '#' {
      HashTakesAll(rest, t);
    } else if filter[f] == '/' {
      StepSeparator(rest, t);
    } else {
      StepLiteral(rest, t);
    }
  }

  lemma AdvanceFilter(filter: string, topic: string, f: nat, n: nat)
    requires Aligned(filter, topic, f, n) && f < |filter| && n < |topic| && filter[f] == '+' && topic[n] == '/'
    ensures Aligned(filter, topic, f + 1, n)
  {
    hide AcceptedText, ValidFilter, Levels;
    assert filter[f..][1..] == filter[f + 1..];
    StepPlusEmpty(filter[f..], topic[n..]);
  }

  /** What the final expression says about the whole strings. */
  lemma Verdict(filter: string, topic: string, f: nat, n: nat)
    requires topic != "" && Aligned(filter, topic, f, n)
    requires Stuck(filter, topic, f, n)
    ensures f == |filter| ==> (AcceptedText(filter, topic) <==> n == |topic|)
    ensures f < |filter| && filter[f] == '+' ==> n > 0 && topic[n - 1] == '/'
    ensures f < |filter| ==> (AcceptedText(filter, topic) <==>
              filter[f] == '#' || (f + 1 < |filter| && filter[f + 1] == '#') || filter[f] == '+')
  {
    hide AcceptedText, ValidFilter, Levels;
    Stopped(filter[f..], topic[n..]);
  }

  /** The last place of the level that `n` stands in. */
  function LastOfLevel(topic: string, n: nat): (m: nat)
    requires n < |topic|
    ensures n <= m < |topic| && (m + 1 == |topic| || topic[m + 1] == '/') && forall i :: n < i <= m ==> topic[i] != '/'
    decreases |topic| - n
  {
    if n + 1 < |topic| && topic[n + 1] != '/' then LastOfLevel(topic, n + 1) else n
  }

  /** The walk is over: a string is used up, or the two characters do not go together. */
  predicate Stuck(filter: string, topic: string, f: nat, n: nat)
    requires f <= |filter| && n <= |topic|
  {
    f == |filter| || n == |topic| || (topic[n] == '/' && filter[f] != '/' && filter[f] != '+') ||
    (filter[f] != '+' && filter[f] != '#' && filter[f] != topic[n])
  }

  /** Where the two pointers stand when the walk is over, for any two strings. */
  function Walk(filter: string, topic: string, f: nat, n: nat): (end: (nat, nat))
    requires f <= |filter| && n <= |topic|
    ensures end.0 <= |filter| && end.1 <= |topic| && Stuck(filter, topic, end.0, end.1)
    decreases |filter| - f
  {
    if Stuck(filter, topic, f, n) then (f, n)
    else if filter[f] == '+' && topic[n] == '/' then Walk(filter, topic, f + 1, n)
    else
      Walk(filter, topic, f + 1,
           1 + (if filter[f] == '+' then LastOfLevel(topic, n) else if filter[f] == '#' then |topic| - 1 else n))
  }

  /** What the matcher makes of any filter, valid or not.  Past the end of the filter the source reads
      the terminating NUL, which is neither wildcard nor separator. */
  predicate LoopAccepts(filter: string, topic: string)
    requires topic != ""
  {
    var (f, n) := Walk(filter, topic, 0, 0);
    if f == |filter| then n == |topic|
    else
      filter[f] == '#' || (f + 1 < |filter| && filter[f + 1] == '#') ||
        (filter[f] == '+' && n > 0 && topic[n - 1] == '/')
  }

  lemma {:induction false} WalkStaysAligned(filter: string, topic: string, f: nat, n: nat)
    requires Aligned(filter, topic, f, n)
    ensures f <= |filter| && n <= |topic|
    ensures Aligned(filter, topic, Walk(filter, topic, f, n).0, Walk(filter, topic, f, n).1)
    decreases |filter| - f
  {
    hide AcceptedText, ValidFilter;
    if !Stuck(filter, topic, f, n) {
      if filter[f] == '+' && topic[n] == '/' {
        AdvanceFilter(filter, topic, f, n);
        WalkStaysAligned(filter, topic, f + 1, n);
      } else {
        var m := if filter[f] == '+' then LastOfLevel(topic, n) else if filter[f] == '#' then |topic| - 1 else n;
        Advance(filter, topic, f, n, m);
        WalkStaysAligned(filter, topic, f + 1, m + 1);
      }
    }
  }

  /** For a valid filter the matcher decides the level-by-level description. */
  lemma LoopAcceptsExactly(filter: string, topic: string)
    requires ValidFilter(filter) && topic != ""
    ensures LoopAccepts(filter, topic) <==> AcceptedText(filter, topic)
  {
    hide AcceptedText, ValidFilter, Aligned;
    AlignedAtStart(filter, topic);
    WalkStaysAligned(filter, topic, 0, 0);
    var (f, n) := Walk(filter, topic, 0, 0);
    Verdict(filter, topic, f, n);
  }

  /** The matcher, for any filter. */
  method IsTopicMatched(filter: string, topic: string) returns (matched: bool)
    requires topic != ""
    ensures matched <==> LoopAccepts(filter, topic)
    ensures ValidFilter(filter) ==> (matched <==> AcceptedText(filter, topic))
  {
    hide AcceptedText, ValidFilter;
    var curf: nat, curn: nat := 0, 0;
    if ValidFilter(filter) {
      LoopAcceptsExactly(filter, topic);
    }
    while curf < |filter| && curn < |topic|
      invariant curf <= |filter| && curn <= |topic| && Walk(filter, topic, curf, curn) == Walk(filter, topic, 0, 0)
      decreases |filter| - curf
    {
      if filter[curf] == '+' && topic[curn] == '/' {
        curf := curf + 1;
        continue;
      }
      if topic[curn] == '/' && filter[curf] != '/' {
        break;
      }
      if filter[curf] != '+' && filter[curf] != '#' && filter[curf] != topic[curn] {
        break;
      }
      if filter[curf] == '+' {
        curn := SkipLevelEnd(topic, curn);
      } else if filter[curf] == '#' {
        curn := |topic| - 1;
      }
      curf := curf + 1;
      curn := curn + 1;
    }
    if curf == |filter| {
      return curn == |topic|;
    }
    return filter[curf] == '#' || (curf + 1 < |filter| && filter[curf + 1] == '#')
        || (filter[curf] == '+' && topic[curn - 1] == '/');
  }

  /** The inner loop: until the next separator or the end of the topic. */
  method SkipLevelEnd(topic: string, from: nat) returns (curn: nat)
    requires from < |topic|
    ensures curn == LastOfLevel(topic, from)
  {
    curn := from;
    var nextpos := curn + 1;
    while nextpos < |topic| && topic[nextpos] != '/'
      invariant curn < |topic| && nextpos == curn + 1 && LastOfLevel(topic, curn) == LastOfLevel(topic, from)
    {
      curn := curn + 1;
      nextpos := curn + 1;
    }
  }

  lemma LastLevelEmpty(t: string)
    ensures Levels(t)[|Levels(t)| - 1] == "" <==> t == "" || t[|t| - 1] == '/'
  {
    if t != "" {
      LastLevelEmpty(t[1..]);
      if |t| > 1 { assert t[1..][|t| - 2] == t[|t| - 1]; }
    }
  }

  lemma HashAppears(s: string)
    ensures '#' in s <==> exists i :: 0 <= i < |Levels(s)| && '#' in Levels(s)[i]
  {
    if s != "" {
      var r, l := Levels(s[1..]), Levels(s);
      HashAppears(s[1..]);
      if s[0] == '/' {
        assert forall i :: 0 <= i < |r| ==> l[i + 1] == r[i];
      } else {
        FirstLevel(s);
        assert forall i :: 1 <= i < |r| ==> l[i] == r[i];
        if '#' in s {
          if s[0] == '#' {
            assert '#' in l[0];
          } else {
            assert '#' in s[1..];
            var i :| 0 <= i < |r| && '#' in r[i];
            assert '#' in l[i];
          }
        }
        if exists i :: 0 <= i < |l| && '#' in l[i] {
          var i :| 0 <= i < |l| && '#' in l[i];
          assert i == 0 ==> s[0] == '#' || '#' in r[0];
          assert i > 0 ==> '#' in r[i];
        }
      }
    }
  }

  /** Whatever the specification matches is accepted, and the walk goes wrong exactly in the two
      over-matches (in the second one, only if what follows is not a closing `#`). */
  lemma WrongExactly(f: seq<string>, t: seq<string>)
    requires ValidLevels(f)
    ensures Matches(f, t) ==> Accepted(f, t)
    ensures Accepted(f, t) && !Matches(f, t) <==>
            HashOverMatch(f, t) || (PlusOverMatch(f, t) && f[|t|..] != ["#"])
  {
    if HashOverMatch(f, t) && Matches(f, t) {
      var k := |f| - 1;
      MatchesPrefix(f, t, k - 1);
      assert false;
    }
    if PlusOverMatch(f, t) {
      MatchesThrough(f, t);
    }
  }

  /** When the filter is longer than the topic and agrees with it so far, only a closing `#` may
      follow. */
  lemma MatchesThrough(f: seq<string>, t: seq<string>)
    requires |f| > |t| && PrefixMatches(f, t, |t|) && ValidLevels(f)
    ensures Matches(f, t) <==> f[|t|..] == ["#"]
  {
    if t == [] {
      assert f[0..] == f;
    } else {
      var g, u := f[1..], t[1..];
      assert LevelMatches(f[0], t[0]);
      forall i | 0 <= i < |u| ensures LevelMatches(g[i], u[i]) {
        assert LevelMatches(f[i + 1], t[i + 1]);
      }
      forall i | 0 <= i < |g| ensures IsLiteral(g[i]) || g[i] == "+" || (g[i] == "#" && i == |g| - 1) {
        assert g[i] == f[i + 1];
      }
      MatchesThrough(g, u);
      assert g[|u|..] == f[|t|..];
    }
  }

  lemma HoldsHash()
    ensures '#' in "#"
  {
    assert "#"[0] == '#';
  }

  /** A filter without `#` against a topic that does not end in a separator is decided exactly as
      the specification decides it. */
  lemma ExactWithoutHash(filter: string, topic: string)
    requires ValidFilter(filter) && topic != "" && '#' !in filter && topic[|topic| - 1] != '/'
    ensures AcceptedText(filter, topic) <==> Matches(Levels(filter), Levels(topic))
  {
    LastLevelEmpty(topic);
    HashAppears(filter);
    var f := Levels(filter);
    HoldsHash();
  }

  /** Both over-matches do occur. */
  lemma OverMatchesOccur()
    ensures AcceptedText("a/#", "ab") && !Matches(Levels("a/#"), Levels("ab"))
    ensures AcceptedText("a/+/b", "a/") && !Matches(Levels("a/+/b"), Levels("a/"))
  {
    assert Levels("") == [""];
    OneLevel("#", "");
    OneLevel("a", "/#");
    OneLevel("ab", "");
    assert Levels("a/#") == ["a", "#"] && Levels("ab") == ["ab"];
    assert HashOverMatch(["a", "#"], ["ab"]);
    SecondOverMatch();
  }

  lemma SecondOverMatch()
    ensures AcceptedText("a/+/b", "a/") && !Matches(Levels("a/+/b"), Levels("a/"))
  {
    OneLevel("b", "");
    OneLevel("+", "/b");
    OneLevel("a", "/+/b");
    OneLevel("a", "/");
    assert Levels("a/+/b") == ["a", "+", "b"] && Levels("a/") == ["a", ""];
    assert PlusOverMatch(["a", "+", "b"], ["a", ""]);
  }

  lemma OneLevel(level: string, rest: string)
    requires '/' !in level && (rest == "" || rest[0] == '/')
    ensures Levels(level + rest) == [level] + (if rest == "" then [] else Levels(rest[1..]))
  {
    SkipLevel(level + rest, |level|);
    assert (level + rest)[|level|..] == rest;
    var l := Levels(level + rest);
    assert l == [l[0]] + l[1..];
    assert ([""] + l[1..])[1..] == l[1..];
    if rest != "" {
      assert Levels(rest) == [""] + Levels(rest[1..]);
    }
  }
}
