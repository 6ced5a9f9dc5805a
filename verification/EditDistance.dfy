// Edit distance (lintcode/dynamic_planning.md:112-143): the table computes the
// length of a shortest script of insertions, deletions and replacements.
module EditDistance {
  import opened MinMax
  import opened Sequences

  lemma Rebuild(s: string)
    requires s != []
    ensures Init(s) + [Last(s)] == s
  {
  }

  // The recurrence the table is filled by.
  function Dist(s: string, t: string): nat
    decreases |s| + |t|
  {
    if s == [] then |t|
    else if t == [] then |s|
    else if Last(s) == Last(t) then Dist(Init(s), Init(t))
    else 1 + Min(Dist(Init(s), Init(t)), Min(Dist(Init(s), t), Dist(s, Init(t))))
  }

  datatype Edit = Insert(pos: nat, c: char) | Delete(pos: nat) | Replace(pos: nat, c: char)

  predicate Applies(e: Edit, s: string) {
    if e.Insert? then e.pos <= |s| else e.pos < |s|
  }

  function Apply(e: Edit, s: string): string
    requires Applies(e, s)
  {
    match e
    case Insert(p, c) => s[..p] + [c] + s[p..]
    case Delete(p) => s[..p] + s[p + 1..]
    case Replace(p, c) => s[p := c]
  }

  lemma ApplyAt(e: Edit, s: string)
    requires Applies(e, s)
    ensures var t := Apply(e, s);
            match e
            case Insert(p, c) =>
              && |t| == |s| + 1 && t[p] == c
              && (forall k :: 0 <= k < p ==> t[k] == s[k]) && forall k :: p < k < |t| ==> t[k] == s[k - 1]
            case Delete(p) =>
              && |t| == |s| - 1
              && (forall k :: 0 <= k < p ==> t[k] == s[k]) && forall k :: p <= k < |t| ==> t[k] == s[k + 1]
            case Replace(p, c) =>
              |t| == |s| && t[p] == c && forall k :: 0 <= k < |t| && k != p ==> t[k] == s[k]
  {
  }

  // Applying the edits of script to s, one after the other, gives t.
  predicate Transforms(script: seq<Edit>, s: string, t: string) {
    if script == [] then s == t
    else Applies(script[0], s) && Transforms(script[1..], Apply(script[0], s), t)
  }

  lemma {:induction false} Symmetric(s: string, t: string)
    ensures Dist(s, t) == Dist(t, s)
    decreases |s| + |t|
  {
    if s != [] && t != [] {
      Symmetric(Init(s), Init(t));
      Symmetric(Init(s), t);
      Symmetric(s, Init(t));
    }
  }

  lemma {:induction false} ToItself(s: string)
    ensures Dist(s, s) == 0
  {
    if s != [] {
      ToItself(Init(s));
    }
  }

  // One character more on one side changes the distance by at most one.
  lemma {:induction false} Append(s: string, c: char, t: string)
    ensures Dist(s + [c], t) <= Dist(s, t) + 1
    ensures Dist(s, t) <= Dist(s + [c], t) + 1
    decreases |s| + |t|
  {
    assert Init(s + [c]) == s;
    if t != [] {
      var u := Init(t);
      assert t == u + [Last(t)];
      Append(u, Last(t), s);
      Symmetric(u, s);
      Symmetric(t, s);
      Append(s, c, u);
    }
  }

  // So taking the diagonal on equal last characters loses nothing against any
  // of the three other moves.
  lemma DiagonalIsBest(s: string, t: string)
    requires s != [] && t != [] && Last(s) == Last(t)
    ensures Dist(s, t) <= 1 + Min(Dist(Init(s), Init(t)), Min(Dist(Init(s), t), Dist(s, Init(t))))
  {
    Rebuild(s);
    Rebuild(t);
    Append(Init(t), Last(t), Init(s));
    Symmetric(Init(t), Init(s));
    Symmetric(t, Init(s));
    Append(Init(s), Last(s), Init(t));
  }

  lemma {:induction false} ReplaceLast(s: string, c: char, d: char, t: string)
    ensures Dist(s + [c], t) <= Dist(s + [d], t) + 1
    decreases |t|
  {
    assert Init(s + [c]) == s == Init(s + [d]);
    if t != [] {
      var u := Init(t);
      assert t == u + [Last(t)];
      Append(u, Last(t), s);
      Symmetric(u, s);
      Symmetric(t, s);
      Append(s, d, u);
      ReplaceLast(s, c, d, u);
    }
  }

  // An edit that leaves the last character alone edits what is before it.
  lemma EditBefore(e: Edit, s: string)
    requires s != [] && Applies(e, s) && if e.Insert? then e.pos < |s| else e.pos + 1 < |s|
    ensures Applies(e, Init(s)) && Apply(e, s) == Apply(e, Init(s)) + [Last(s)]
  {
  }

  // No single edit brings a string closer to t by more than one.
  lemma {:induction false} OneEdit(e: Edit, s: string, t: string)
    requires Applies(e, s)
    ensures Dist(s, t) <= Dist(Apply(e, s), t) + 1
    decreases |s| + |t|
  {
    if e.Insert? && e.pos == |s| {
      assert Apply(e, s) == s + [e.c];
      Append(s, e.c, t);
    } else if !e.Insert? && e.pos + 1 == |s| {
      var p := Init(s);
      assert s == p + [Last(s)];
      if e.Delete? {
        assert Apply(e, s) == p;
        Append(p, Last(s), t);
      } else {
        assert Apply(e, s) == p + [e.c];
        ReplaceLast(p, Last(s), e.c, t);
      }
    } else {
      EditBefore(e, s);
      var p, q := Init(s), Apply(e, Init(s));
      assert Init(q + [Last(s)]) == q;
      if t != [] {
        OneEdit(e, p, Init(t));
        OneEdit(e, p, t);
        OneEdit(e, s, Init(t));
      }
    }
  }

  // No script is shorter than the distance.
  lemma {:induction false} NoShorterScript(script: seq<Edit>, s: string, t: string)
    requires Transforms(script, s, t)
    ensures Dist(s, t) <= |script|
  {
    if script == [] {
      ToItself(s);
    } else {
      OneEdit(script[0], s, t);
      NoShorterScript(script[1..], Apply(script[0], s), t);
    }
  }

  // The script that the choices of the recurrence spell out.
  function Script(s: string, t: string): seq<Edit>
    decreases |s| + |t|
  {
    if s == [] && t == [] then []
    else if s == [] then Script(s, Init(t)) + [Insert(|t| - 1, Last(t))]
    else if t == [] then [Delete(|s| - 1)] + Script(Init(s), t)
    else if Last(s) == Last(t) then Script(Init(s), Init(t))
    else
      var a, b, c := Dist(Init(s), Init(t)), Dist(Init(s), t), Dist(s, Init(t));
      if a <= b && a <= c then Script(Init(s), Init(t)) + [Replace(|t| - 1, Last(t))]
      else if b <= c then [Delete(|s| - 1)] + Script(Init(s), t)
      else Script(s, Init(t)) + [Insert(|t| - 1, Last(t))]
  }

  lemma {:induction false} WithSuffix(script: seq<Edit>, s: string, t: string, c: char)
    requires Transforms(script, s, t)
    ensures Transforms(script, s + [c], t + [c])
  {
    if script != [] {
      var e := script[0];
      assert Apply(e, s + [c]) == Apply(e, s) + [c];
      WithSuffix(script[1..], Apply(e, s), t, c);
    }
  }

  lemma {:induction false} ThenEdit(script: seq<Edit>, s: string, t: string, e: Edit)
    requires Transforms(script, s, t) && Applies(e, t)
    ensures Transforms(script + [e], s, Apply(e, t))
  {
    if script == [] {
      assert Transforms([e], s, Apply(e, t));
      assert script + [e] == [e];
    } else {
      ThenEdit(script[1..], Apply(script[0], s), t, e);
      assert (script + [e])[1..] == script[1..] + [e];
    }
  }

  lemma FirstDelete(script: seq<Edit>, s: string, t: string)
    requires s != [] && Transforms(script, Init(s), t)
    ensures Transforms([Delete(|s| - 1)] + script, s, t)
  {
    assert Apply(Delete(|s| - 1), s) == Init(s);
    assert ([Delete(|s| - 1)] + script)[1..] == script;
  }

  lemma LastInsert(script: seq<Edit>, s: string, t: string)
    requires t != [] && Transforms(script, s, Init(t))
    ensures Transforms(script + [Insert(|t| - 1, Last(t))], s, t)
  {
    var e := Insert(|t| - 1, Last(t));
    ThenEdit(script, s, Init(t), e);
    assert Apply(e, Init(t)) == t;
  }

  lemma LastReplace(script: seq<Edit>, s: string, t: string)
    requires s != [] && t != [] && Transforms(script, Init(s), Init(t))
    ensures Transforms(script + [Replace(|t| - 1, Last(t))], s, t)
  {
    var e := Replace(|t| - 1, Last(t));
    WithSuffix(script, Init(s), Init(t), Last(s));
    var u := Init(t) + [Last(s)];
    Rebuild(s);
    assert u[|t| - 1 := Last(t)] == t;
    ThenEdit(script, s, u, e);
  }

  // A script of that length exists.
  lemma {:induction false} ScriptWorks(s: string, t: string)
    ensures Transforms(Script(s, t), s, t) && |Script(s, t)| == Dist(s, t)
    decreases |s| + |t|
  {
    if s == [] && t == [] {
    } else if s == [] {
      ScriptWorks(s, Init(t));
      LastInsert(Script(s, Init(t)), s, t);
    } else if t == [] {
      ScriptWorks(Init(s), t);
      FirstDelete(Script(Init(s), t), s, t);
    } else if Last(s) == Last(t) {
      ScriptWorks(Init(s), Init(t));
      WithSuffix(Script(Init(s), Init(t)), Init(s), Init(t), Last(s));
      Rebuild(s);
      Rebuild(t);
    } else {
      var a, b, c := Dist(Init(s), Init(t)), Dist(Init(s), t), Dist(s, Init(t));
      if a <= b && a <= c {
        ScriptWorks(Init(s), Init(t));
        LastReplace(Script(Init(s), Init(t)), s, t);
      } else if b <= c {
        ScriptWorks(Init(s), t);
        FirstDelete(Script(Init(s), t), s, t);
      } else {
        ScriptWorks(s, Init(t));
        LastInsert(Script(s, Init(t)), s, t);
      }
    }
  }

  ghost predicate IsEditDistance(d: int, s: string, t: string) {
    && (exists script :: Transforms(script, s, t) && |script| == d)
    && (forall script :: Transforms(script, s, t) ==> |script| >= d)
  }

  lemma DistIsEditDistance(s: string, t: string)
    ensures IsEditDistance(Dist(s, t), s, t)
  {
    ScriptWorks(s, t);
    forall script | Transforms(script, s, t)
      ensures |script| >= Dist(s, t)
    {
      NoShorterScript(script, s, t);
    }
  }

  // minDistance (lintcode/dynamic_planning.md:120-141)
  method MinDistance(word1: string, word2: string) returns (d: int)
    ensures IsEditDistance(d, word1, word2)
  {
    var m, n := |word1|, |word2|;
    var dp := new int[m + 1, n + 1]((_, _) => 0);
    for i := 0 to m + 1
      invariant forall a :: 0 <= a < i ==> dp[a, 0] == a
    {
      dp[i, 0] := i;
    }
    for j := 0 to n + 1
      invariant forall a :: 0 <= a <= m ==> dp[a, 0] == a
      invariant forall b :: 0 <= b < j ==> dp[0, b] == b
    {
      dp[0, j] := j;
    }
    for i := 1 to m + 1
      invariant forall a, b :: 0 <= a <= m && 0 <= b <= n && (a < i || b == 0) ==>
                  dp[a, b] == Dist(word1[..a], word2[..b])
    {
      for j := 1 to n + 1
        invariant forall a, b :: 0 <= a <= m && 0 <= b <= n && (a < i || b == 0 || (a == i && b < j)) ==>
                    dp[a, b] == Dist(word1[..a], word2[..b])
      {
        Prefixes(word1, i);
        Prefixes(word2, j);
        if word1[i - 1] == word2[j - 1] {
          dp[i, j] := dp[i - 1, j - 1];
        } else {
          dp[i, j] := Min(dp[i - 1, j - 1], Min(dp[i - 1, j], dp[i, j - 1])) + 1;
        }
      }
    }
    d := dp[m, n];
    assert word1[..m] == word1 && word2[..n] == word2;
    DistIsEditDistance(word1, word2);
  }
}
