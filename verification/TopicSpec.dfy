/** Topic matching as section 4.7 of MQTT 3.1.1 defines it, level by level. */
module TopicSpec {

  /** The levels of a topic name or filter: the pieces between the separators. */
  function Levels(s: string): (l: seq<string>)
    ensures |l| > 0
  {
    if s == "" then [""]
    else if s[0] == '/' then [""] + Levels(s[1..])
    else
      var rest := Levels(s[1..]);
      [[s[0]] + rest[0]] + rest[1..]
  }

  predicate IsLiteral(level: string) {
    '+' !in level && '#' !in level
  }

  /** Wildcards stand alone in their level, and the multi-level one only in the last level. */
  predicate ValidLevels(f: seq<string>) {
    forall i :: 0 <= i < |f| ==> IsLiteral(f[i]) || f[i] == "+" || (f[i] == "#" && i == |f| - 1)
  }

  predicate ValidFilter(filter: string) {
    ValidLevels(Levels(filter))
  }

  predicate LevelMatches(f: string, t: string) {
    f == "+" || f == t
  }

  /** The multi-level wildcard matches any number of levels, including none. */
  predicate Matches(f: seq<string>, t: seq<string>) {
    if f == ["#"] then true
    else if f == [] || t == [] then f == t
    else LevelMatches(f[0], t[0]) && Matches(f[1..], t[1..])
  }

  /** The examples of sections 4.7.1.2 and 4.7.1.3. */
  lemma StandardExamples()
    ensures Matches(["sport", "tennis", "player1", "#"], ["sport", "tennis", "player1"])
    ensures Matches(["sport", "tennis", "player1", "#"], ["sport", "tennis", "player1", "score", "wimbledon"])
    ensures Matches(["sport", "#"], ["sport"]) && Matches(["#"], ["sport", "tennis"])
    ensures Matches(["sport", "tennis", "+"], ["sport", "tennis", "player1"])
    ensures !Matches(["sport", "tennis", "+"], ["sport", "tennis", "player1", "ranking"])
    ensures !Matches(["sport", "+"], ["sport"]) && Matches(["sport", "+"], ["sport", ""])
    ensures Matches(["+", "+"], ["", "finance"]) && Matches(["", "+"], ["", "finance"]) &&
            !Matches(["+"], ["", "finance"])
  {
  }

  /** The levels put together again, with a separator between any two. */
  function Join(l: seq<string>): string
    requires l != []
  {
    if |l| == 1 then l[0] else l[0] + "/" + Join(l[1..])
  }

  /** The levels are the one way to cut the text at its separators. */
  lemma {:induction false} LevelsExactly(s: string)
    ensures Join(Levels(s)) == s && forall l :: l in Levels(s) ==> '/' !in l
  {
    if s != "" {
      var rest := Levels(s[1..]);
      LevelsExactly(s[1..]);
      if s[0] == '/' {
        assert Levels(s)[1..] == rest;
      } else {
        assert rest[0] in rest && forall l :: l in rest[1..] ==> l in rest;
        assert Levels(s)[1..] == rest[1..];
      }
    }
  }

  predicate PrefixMatches(f: seq<string>, t: seq<string>, n: nat)
    requires n <= |f| && n <= |t|
  {
    forall i :: 0 <= i < n ==> LevelMatches(f[i], t[i])
  }

  /** First over-match of the pointer walk: before a final `/#` the last literal level is only a
      proper prefix of the topic's level. */
  predicate HashOverMatch(f: seq<string>, t: seq<string>) {
    var k := |f| - 1;
    k >= 1 && f[k] == "#" && |t| >= k && PrefixMatches(f, t, k - 1) &&
    f[k - 1] != "+" && f[k - 1] < t[k - 1]
  }

  /** Second over-match: the topic ends in an empty level, there the filter has `+`, and more
      filter levels follow. */
  predicate PlusOverMatch(f: seq<string>, t: seq<string>) {
    var j := |t|;
    j >= 1 && |f| > j && t[j - 1] == "" && f[j - 1] == "+" && PrefixMatches(f, t, j - 1)
  }

  /** What the pointer walk accepts, in terms of levels. */
  predicate Accepted(f: seq<string>, t: seq<string>) {
    Matches(f, t) || HashOverMatch(f, t) || PlusOverMatch(f, t)
  }

  // How the three relations move along when both sides lose what was just compared.

  lemma MatchesPrefix(f: seq<string>, t: seq<string>, n: nat)
    requires Matches(f, t) && n < |f| && f[n] != "#"
    ensures n < |t| && LevelMatches(f[n], t[n])
  {
    if n > 0 {
      MatchesPrefix(f[1..], t[1..], n - 1);
    }
  }

  /** Dropping a first level that matches leaves acceptance as it was, as long as both sides
      have more to compare. */
  lemma DropLevel(f: seq<string>, t: seq<string>)
    requires |f| >= 2 && |t| >= 2 && LevelMatches(f[0], t[0]) && f[0] != "#"
    ensures Accepted(f, t) <==> Accepted(f[1..], t[1..])
  {
    var g, u := f[1..], t[1..];
    assert Matches(f, t) == Matches(g, u);
    forall n: nat | n < |f| && n < |t|
      ensures PrefixMatches(f, t, n + 1) <==> PrefixMatches(g, u, n)
    {
      assert forall i :: 0 <= i < n ==> g[i] == f[i + 1] && u[i] == t[i + 1];
      if PrefixMatches(g, u, n) {
        forall i | 0 <= i < n + 1 ensures LevelMatches(f[i], t[i]) {
          if i > 0 { assert LevelMatches(g[i - 1], u[i - 1]); }
        }
      }
      if PrefixMatches(f, t, n + 1) {
        forall i | 0 <= i < n ensures LevelMatches(g[i], u[i]) {
          assert LevelMatches(f[i + 1], t[i + 1]);
        }
      }
    }
    var k := |f| - 1;
    if k == 1 {
    } else if |t| >= k {
      assert PrefixMatches(f, t, k - 1) <==> PrefixMatches(g, u, k - 2);
    }
    if |f| > |t| {
      assert PrefixMatches(f, t, |t| - 1) <==> PrefixMatches(g, u, |t| - 2);
    }
  }

  /** A first level may be replaced on both sides by one that compares the same way. */
  lemma SwapFirst(f: seq<string>, t: seq<string>, x: string, y: string)
    requires |f| >= 1 && |t| >= 1 && f[0] != "#" && x != "#"
    requires LevelMatches(f[0], t[0]) <==> LevelMatches(x, y)
    requires f[0] != "+" && f[0] < t[0] <==> x != "+" && x < y
    requires f[0] == "+" && t[0] == "" <==> x == "+" && y == ""
    ensures Accepted(f, t) <==> Accepted([x] + f[1..], [y] + t[1..])
  {
    var g, u := [x] + f[1..], [y] + t[1..];
    assert g[1..] == f[1..] && u[1..] == t[1..];
    forall n: nat | n <= |f| && n <= |t|
      ensures PrefixMatches(f, t, n) <==> PrefixMatches(g, u, n)
    {
      assert forall i :: 1 <= i < n ==> g[i] == f[i] && u[i] == t[i];
      if n > 0 {
        assert PrefixMatches(f, t, n) ==> LevelMatches(f[0], t[0]);
        assert PrefixMatches(g, u, n) ==> LevelMatches(g[0], u[0]);
      }
    }
  }
}
