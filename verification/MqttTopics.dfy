/** aiot_mqtt_api.c: the check of topic filters and the matching of topics against them. */
module MqttTopics {

  // ----- topics as levels -----

  /** The length of the first level. */
  function FirstLevel(s: string): (k: nat)
    ensures k <= |s| && (k < |s| ==> s[k] == '/') && forall i | 0 <= i < k :: s[i] != '/'
  {
    if s == "" || s[0] == '/' then 0 else 1 + FirstLevel(s[1..])
  }

  /** The levels of a topic, separated by slashes. */
  function Levels(s: string): (ls: seq<string>)
    ensures |ls| >= 1
    decreases |s|
  {
    var k := FirstLevel(s);
    if k == |s| then [s] else [s[..k]] + Levels(s[k + 1..])
  }

  lemma FirstLevelUnique(s: string, k: nat)
    requires k <= |s| && (k < |s| ==> s[k] == '/') && forall i | 0 <= i < k :: s[i] != '/'
    ensures FirstLevel(s) == k
  {
    var f := FirstLevel(s);
    assert f < |s| ==> s[f] == '/';
  }

  /** '+' and '#' stand alone in their level, and '#' in the last one. */
  predicate ValidLevels(ls: seq<string>) {
    forall i | 0 <= i < |ls| ::
      ('+' in ls[i] ==> ls[i] == "+") && ('#' in ls[i] ==> ls[i] == "#" && i == |ls| - 1)
  }

  /** Matching of section 4.7.1 of MQTT Version 5.0: '+' is one level, '#' any number of levels with the parent. */
  predicate Matches(filter: seq<string>, topic: seq<string>) {
    if filter == [] then topic == []
    else if filter[0] == "#" then true
    else topic != [] && (filter[0] == "+" || filter[0] == topic[0]) && Matches(filter[1..], topic[1..])
  }

  // ----- the check of filters -----

  /** The condition on the characters around a wildcard at position i of a string that starts a level. */
  predicate WildcardPlaced(s: string, i: nat)
    requires i < |s|
  {
    && (s[i] == '+' ==> (i == 0 || s[i - 1] == '/') && (i + 1 == |s| || s[i + 1] == '/'))
    && (s[i] == '#' ==> (i == 0 || s[i - 1] == '/') && i + 1 == |s|)
  }

  predicate WildcardsPlaced(s: string) {
    forall i | 0 <= i < |s| :: WildcardPlaced(s, i)
  }

  /** Within one level: a wildcard is alone in it, and '#' has nothing after it. */
  lemma PlacedInLevel(s: string, k: nat)
    requires k == FirstLevel(s)
    ensures (forall i | 0 <= i < k :: WildcardPlaced(s, i))
            <==> ('+' in s[..k] ==> s[..k] == "+") && ('#' in s[..k] ==> s[..k] == "#" && k == |s|)
  {
    if forall i | 0 <= i < k :: WildcardPlaced(s, i) {
      if '+' in s[..k] {
        var i :| 0 <= i < k && s[..k][i] == '+';
        assert WildcardPlaced(s, i);
        assert i == 0 && k == 1;
      }
      if '#' in s[..k] {
        var i :| 0 <= i < k && s[..k][i] == '#';
        assert WildcardPlaced(s, i);
        assert i == 0 && k == 1;
      }
    } else {
      var i :| 0 <= i < k && !WildcardPlaced(s, i);
      assert s[i] == s[..k][i] && s[i] in s[..k];
    }
  }

  lemma PlacedAfter(s: string, k: nat, i: nat)
    requires k < |s| && s[k] == '/' && k + 1 + i < |s|
    ensures WildcardPlaced(s[k + 1..], i) <==> WildcardPlaced(s, k + 1 + i)
  {
    var t := s[k + 1..];
    assert t[i] == s[k + 1 + i];
    if i > 0 { assert t[i - 1] == s[k + i]; }
    if i + 1 < |t| { assert t[i + 1] == s[k + 2 + i]; }
  }

  /** The characters after the first level are placed as in the string that starts after its slash. */
  lemma PlacedInRest(s: string, k: nat)
    requires k == FirstLevel(s) && k < |s|
    ensures WildcardsPlaced(s) <==> (forall i | 0 <= i < k :: WildcardPlaced(s, i)) && WildcardsPlaced(s[k + 1..])
  {
    assert WildcardPlaced(s, k);
    hide WildcardPlaced;
    var t := s[k + 1..];
    if WildcardsPlaced(s) {
      forall i | 0 <= i < |t|
        ensures WildcardPlaced(t, i)
      {
        PlacedAfter(s, k, i);
      }
    }
    if WildcardsPlaced(t) {
      forall i | k < i < |s|
        ensures WildcardPlaced(s, i)
      {
        PlacedAfter(s, k, i - k - 1);
      }
    }
  }

  /** The placement of the characters is validity of the levels. */
  lemma {:induction false} PlacedIsValid(s: string)
    ensures WildcardsPlaced(s) <==> ValidLevels(Levels(s))
    decreases |s|
  {
    var k := FirstLevel(s);
    PlacedInLevel(s, k);
    if k == |s| {
      assert s[..k] == s && Levels(s) == [s];
      ValidSingle(s);
    } else {
      var t := s[k + 1..];
      PlacedInRest(s, k);
      PlacedIsValid(t);
      var ls := Levels(t);
      assert Levels(s) == [s[..k]] + ls;
      ValidCons(s[..k], ls);
    }
  }

  lemma ValidSingle(l: string)
    ensures ValidLevels([l]) <==> ('+' in l ==> l == "+") && ('#' in l ==> l == "#")
  {
    var all := [l];
    assert all[0] == l;
  }

  lemma ValidCons(l: string, ls: seq<string>)
    requires ls != []
    ensures ValidLevels([l] + ls) <==> ('+' in l ==> l == "+") && '#' !in l && ValidLevels(ls)
  {
    var all := [l] + ls;
    if ValidLevels(all) {
      assert all[0] == l;
      forall i | 0 <= i < |ls|
        ensures ('+' in ls[i] ==> ls[i] == "+") && ('#' in ls[i] ==> ls[i] == "#" && i == |ls| - 1)
      {
        assert all[i + 1] == ls[i];
      }
    }
    if ('+' in l ==> l == "+") && '#' !in l && ValidLevels(ls) {
      forall i | 0 <= i < |all|
        ensures ('+' in all[i] ==> all[i] == "+") && ('#' in all[i] ==> all[i] == "#" && i == |all| - 1)
      {
        if i > 0 { assert all[i] == ls[i - 1]; }
      }
    }
  }

  /** _core_mqtt_topic_is_valid: a leading slash and well placed wildcards, nothing else. */
  method TopicIsValid(topic: string) returns (ok: bool)
    ensures ok <==> topic != "" && topic[0] == '/' && ValidLevels(Levels(topic))
  {
    PlacedIsValid(topic);
    if topic == "" || topic[0] != '/' { return false; }
    for idx := 0 to |topic|
      invariant forall i | 0 <= i < idx :: WildcardPlaced(topic, i)
    {
      assert WildcardPlaced(topic, 0);
      if topic[idx] == '+' {
        if topic[idx - 1] != '/' || (idx + 1 < |topic| && topic[idx + 1] != '/') {
          assert !WildcardPlaced(topic, idx);
          return false;
        }
      }
      if topic[idx] == '#' {
        if topic[idx - 1] != '/' || idx + 1 < |topic| {
          assert !WildcardPlaced(topic, idx);
          return false;
        }
      }
    }
    ok := true;
  }

  // ----- the matching loop -----

  /** What the loop returns from a state in which F and T are still to be read. */
  ghost predicate Rest(F: string, T: string)
    decreases |F|
  {
    if F == "" then T == ""
    else if T == "" then F == "/#"
    else if F[0] == '#' then true
    else if F[0] == '+' then
      var k := FirstLevel(T);
      !(k < |T| && |F| == 1) && Rest(F[1..], T[k..])
    else F[0] == T[0] && Rest(F[1..], T[1..])
  }

  /** _core_mqtt_topic_compare: the character loop. */
  method TopicCompare(topic: string, cmpTopic: string) returns (ok: bool)
    ensures ok <==> Rest(topic, cmpTopic)
    ensures topic != "" && topic[0] == '/' && ValidLevels(Levels(topic)) ==>
              (ok <==> Matches(Levels(topic), Levels(cmpTopic)) && !Missed(Levels(topic), Levels(cmpTopic)))
  {
    hide Levels, ValidLevels, Matches, Missed;
    var idx, cmpIdx := 0, 0;
    if topic != "" && topic[0] == '/' && ValidLevels(Levels(topic)) { CompareIsMatching(topic, cmpTopic); }
    assert topic[0..] == topic && cmpTopic[0..] == cmpTopic;
    while idx < |topic|
      invariant idx <= |topic| && cmpIdx <= |cmpTopic|
      invariant Rest(topic, cmpTopic) <==> Rest(topic[idx..], cmpTopic[cmpIdx..])
    {
      ghost var F, T := topic[idx..], cmpTopic[cmpIdx..];
      assert F[1..] == topic[idx + 1..];
      if cmpIdx >= |cmpTopic| {
        return |topic| - idx == 2 && topic[idx..idx + 2] == "/#";
      }
      if topic[idx] == '#' { return true; }
      if topic[idx] == '+' {
        ghost var start := cmpIdx;
        while cmpIdx < |cmpTopic| && cmpTopic[cmpIdx] != '/'
          invariant start <= cmpIdx <= |cmpTopic|
          invariant forall i | start <= i < cmpIdx :: cmpTopic[i] != '/'
        {
          cmpIdx := cmpIdx + 1;
        }
        FirstLevelUnique(T, cmpIdx - start);
        if cmpIdx < |cmpTopic| && idx + 1 == |topic| { return false; }
        assert T[cmpIdx - start..] == cmpTopic[cmpIdx..];
      } else {
        if topic[idx] != cmpTopic[cmpIdx] { return false; }
        cmpIdx := cmpIdx + 1;
        assert T[1..] == cmpTopic[cmpIdx..];
      }
      idx := idx + 1;
    }
    ok := cmpIdx >= |cmpTopic|;
  }

  // ----- the loop decides matching -----

  /**
   * The levels the loop cannot match: the topic ends in an empty level that falls on a wildcard. The bounds test
   * at the head of the loop then fails before the wildcard is looked at.
   */
  predicate Missed(filter: seq<string>, topic: seq<string>)
    requires topic != []
  {
    var n := |topic|;
    topic[n - 1] == "" && |filter| >= n && (filter[n - 1] == "+" || filter[n - 1] == "#")
  }

  predicate Literal(l: string) {
    '/' !in l && '+' !in l && '#' !in l
  }

  /** A literal level is read exactly when it is the topic's next level. */
  lemma {:induction false} ReadLiteral(l: string, X: string, T: string)
    requires Literal(l) && (X == "" || X[0] == '/')
    ensures var u := FirstLevel(T); Rest(l + X, T) <==> T[..u] == l && Rest(X, T[u..])
    decreases |l|
  {
    var u := FirstLevel(T);
    if l == "" {
      assert l + X == X;
      if u == 0 { assert T[0..] == T; } else { assert !Rest(X, T); }
    } else {
      var F := l + X;
      assert F[0] == l[0] && F[0] in l;
      assert F[1..] == l[1..] + X;
      if T != "" && T[0] == l[0] {
        var T1 := T[1..];
        assert u == 1 + FirstLevel(T1);
        assert T1[FirstLevel(T1)..] == T[u..];
        assert T[..u] == [T[0]] + T1[..u - 1] && l == [l[0]] + l[1..];
        ReadLiteral(l[1..], X, T1);
      } else {
        assert F[0] != '/';
        assert T == "" ==> F != "/#";
        assert u > 0 ==> T[..u][0] == T[0];
      }
    }
  }

  lemma LevelsCons(s: string, k: nat)
    requires k == FirstLevel(s)
    ensures k < |s| ==> Levels(s) == [s[..k]] + Levels(s[k + 1..])
  {
  }

  lemma LevelsLast(s: string)
    requires FirstLevel(s) == |s|
    ensures Levels(s) == [s]
  {
  }

  /** Matching and the missed case after a level that fits. */
  lemma AfterLevel(f: string, fl: seq<string>, t: string, tl: seq<string>)
    requires tl != [] && f != "#" && (f == "+" || f == t)
    ensures Matches([f] + fl, [t] + tl) <==> Matches(fl, tl)
    ensures Missed([f] + fl, [t] + tl) <==> Missed(fl, tl)
  {
    var F, T, n := [f] + fl, [t] + tl, |tl|;
    assert F[1..] == fl && T[1..] == tl;
    assert T[n] == tl[n - 1];
    if |fl| >= n { assert F[n] == fl[n - 1]; }
  }

  /** After a level that fits both strings go on behind their slashes. */
  lemma NextLevels(F: string, T: string, k: nat, u: nat)
    requires k == FirstLevel(F) < |F| && u == FirstLevel(T) < |T|
    ensures Rest(F[k..], T[u..]) <==> Rest(F[k + 1..], T[u + 1..])
  {
    assert F[k..][1..] == F[k + 1..] && T[u..][1..] == T[u + 1..];
  }

  lemma SingleHash(F: string)
    requires F != "" && ValidLevels(Levels(F)) && F[0] == '#'
    ensures F == "#" && Levels(F) == ["#"]
  {
    var k, ls := FirstLevel(F), Levels(F);
    assert ls[0] == F[..k];
    assert k > 0 && F[..k][0] == '#';
    assert '#' in ls[0];
    LevelsCons(F, k);
  }

  lemma FirstOfLevels(s: string)
    ensures Levels(s)[0] == s[..FirstLevel(s)]
  {
  }

  /** What is left is "/#" exactly when the rest of the levels is the single level '#'. */
  lemma ParentOnly(F: string, k: nat)
    requires k == FirstLevel(F) < |F| && ValidLevels(Levels(F[k + 1..]))
    ensures F[k..] == "/#" <==> Levels(F[k + 1..])[0] == "#"
  {
    hide Levels, ValidLevels, FirstLevel;
    var G := F[k + 1..];
    assert F[k..] == "/" + G;
    FirstOfLevels(G);
    if Levels(G)[0] == "#" {
      assert G[0] == G[..FirstLevel(G)][0] == '#';
      SingleHash(G);
    }
    if F[k..] == "/#" {
      assert G == F[k..][1..] == "#";
      FirstLevelUnique(G, 1);
    }
  }

  /** The first levels fit: a '+' needs something to be left of the topic. */
  predicate Fits(f: string, t: string, T: string) {
    if f == "+" then T != "" else f == t
  }

  /** Reading one level. */
  lemma ReadLevel(F: string, T: string, k: nat, u: nat)
    requires k == FirstLevel(F) && u == FirstLevel(T) && ValidLevels(Levels(F)) && F[..k] != "#"
    ensures Rest(F, T) <==> Fits(F[..k], T[..u], T) && Rest(F[k..], T[u..])
  {
    var f := F[..k];
    FirstOfLevels(F);
    assert F == f + F[k..];
    if f == "+" {
      assert F[0] == f[0] == '+' && k == 1;
      if T == "" { assert F != "/#"; }
      assert |F| == 1 ==> (Rest(F[1..], T[u..]) <==> u == |T|);
    } else {
      assert Literal(f) by {
        assert '/' !in f;
        assert Levels(F)[0] == f;
      }
      ReadLiteral(f, F[k..], T);
    }
  }

  lemma LastLevels(f: string, fl: seq<string>, t: string)
    requires f != "#"
    ensures Matches([f] + fl, [t]) <==> (f == "+" || f == t) && (fl == [] || fl[0] == "#")
    ensures Missed([f] + fl, [t]) <==> t == "" && f == "+"
  {
    assert ([f] + fl)[1..] == fl && [t][1..] == [];
  }

  lemma TooManyLevels(f: string, t: string, tl: seq<string>)
    requires f != "#" && tl != []
    ensures !Matches([f], [t] + tl)
  {
    assert [f][1..] == [] && ([t] + tl)[1..] == tl;
  }

  lemma FitNeeded(f: string, fl: seq<string>, t: string, tl: seq<string>)
    requires f != "#" && f != "+" && f != t
    ensures !Matches([f] + fl, [t] + tl)
  {
  }

  /** From the start of a level the loop decides matching, except for the missed case. */
  lemma {:induction false} RestIsMatching(F: string, T: string)
    requires ValidLevels(Levels(F))
    ensures Rest(F, T) <==> Matches(Levels(F), Levels(T)) && !Missed(Levels(F), Levels(T))
    decreases |F|
  {
    hide Rest, Matches, Missed, Levels, ValidLevels;
    var k, u := FirstLevel(F), FirstLevel(T);
    var f, t := F[..k], T[..u];
    FirstOfLevels(F);
    if f == "#" {
      assert F[0] == f[0] == '#';
      SingleHash(F);
      HashMatches(F, T);
    } else {
      ReadLevel(F, T, k, u);
      if u == |T| { LevelsLast(T); } else { LevelsCons(T, u); }
      if k == |F| {
        LevelsLast(F);
        assert [f] + [] == [f] && F == f;
        EmptyRest(F[k..], T[u..]);
        if u == |T| {
          assert t == T;
          LastLevels(f, [], t);
        } else {
          assert |T[u..]| > 0;
          TooManyLevels(f, t, Levels(T[u + 1..]));
        }
      } else {
        var fl := Levels(F[k + 1..]);
        LevelsCons(F, k);
        ValidCons(f, fl);
        if u == |T| {
          assert t == T && T[u..] == "" && |F[k..]| > 0;
          LastLevels(f, fl, t);
          ParentOnly(F, k);
          EmptyTopic(F[k..], T[u..]);
        } else {
          var tl := Levels(T[u + 1..]);
          NextLevels(F, T, k, u);
          RestIsMatching(F[k + 1..], T[u + 1..]);
          if f == "+" || f == t { AfterLevel(f, fl, t, tl); } else { FitNeeded(f, fl, t, tl); }
        }
      }
    }
  }

  lemma EmptyRest(F: string, T: string)
    requires F == ""
    ensures Rest(F, T) <==> T == ""
  {
  }

  lemma EmptyTopic(F: string, T: string)
    requires T == "" && F != ""
    ensures Rest(F, T) <==> F == "/#"
  {
  }

  /** A '#' at the start of a level matches all that is left, unless nothing is. */
  lemma HashMatches(F: string, T: string)
    requires F == "#" && Levels(F) == ["#"]
    ensures Rest(F, T) <==> T != ""
    ensures Matches(Levels(F), Levels(T)) && (Missed(Levels(F), Levels(T)) <==> T == "")
  {
    var u := FirstLevel(T);
    if u < |T| {
      LevelsCons(T, u);
    } else {
      LevelsLast(T);
    }
  }

  /**
   * For every filter that passes the check and every topic, the character loop succeeds exactly when the levels
   * match, unless the topic ends in an empty level that falls on a wildcard.
   */
  lemma CompareIsMatching(filter: string, topic: string)
    requires filter != "" && filter[0] == '/' && ValidLevels(Levels(filter))
    ensures Rest(filter, topic) <==> Matches(Levels(filter), Levels(topic)) && !Missed(Levels(filter), Levels(topic))
    ensures (topic == "" || topic[|topic| - 1] != '/') ==> (Rest(filter, topic) <==> Matches(Levels(filter), Levels(topic)))
  {
    RestIsMatching(filter, topic);
    if topic == "" {
      LevelsLast(topic);
      LevelsCons(filter, 0);
      assert Levels(filter)[0] == "";
    } else if topic[|topic| - 1] != '/' {
      LastLevel(topic);
    }
  }

  lemma {:induction false} LastLevel(s: string)
    requires s != "" && s[|s| - 1] != '/'
    ensures var ls := Levels(s); ls[|ls| - 1] != ""
    decreases |s|
  {
    var k := FirstLevel(s);
    if k < |s| {
      LevelsCons(s, k);
      LastLevel(s[k + 1..]);
    }
  }

  lemma ThreeLevels(last: string)
    requires FirstLevel(last) == |last|
    ensures Levels("/a/" + last) == ["", "a", last]
  {
    hide Levels, FirstLevel;
    var s, t := "/a/" + last, "a/" + last;
    assert s[0] == '/' && t[0] == 'a' && t[1] == '/';
    assert s[1..] == t && t[2..] == last && s[..0] == "" && t[..1] == "a";
    FirstLevelUnique(s, 0);
    FirstLevelUnique(t, 1);
    LevelsCons(s, 0);
    LevelsCons(t, 1);
    LevelsLast(last);
  }

  /** The exception is real: "/a/+" should match "/a/" and the loop says it does not. */
  lemma TrailingSlashIsMissed()
    ensures ValidLevels(Levels("/a/+")) && Matches(Levels("/a/+"), Levels("/a/")) && !Rest("/a/+", "/a/")
  {
    hide Rest, Levels, FirstLevel;
    FirstLevelUnique("+", 1);
    FirstLevelUnique("", 0);
    ThreeLevels("+");
    ThreeLevels("");
    assert "/a/" + "+" == "/a/+" && "/a/" + "" == "/a/";
    AfterLevel("", ["a", "+"], "", ["a", ""]);
    AfterLevel("a", ["+"], "a", [""]);
    LastLevels("+", [], "");
    assert [""] + ["a", "+"] == ["", "a", "+"] && [""] + ["a", ""] == ["", "a", ""];
    assert ["a"] + ["+"] == ["a", "+"] && ["a"] + [""] == ["a", ""] && ["+"] + [] == ["+"];
    RestIsMatching("/a/+", "/a/");
  }
}
