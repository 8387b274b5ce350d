/** SQL `LIKE`: the table program, what patterns mean, and the two shortcut recognisers. */
module Like {
  import opened Wrappers

  // ----- Meaning ----------------------------------------------------------------------------

  /** `%` stands for any run of characters, `_` for any one character, all others for themselves. */
  predicate Means(v: string, p: string)
    decreases |p|
  {
    if p == "" then v == ""
    else if p[0] == '%' then exists k | 0 <= k <= |v| :: Means(v[k..], p[1..])
    else v != "" && (p[0] == '_' || p[0] == v[0]) && Means(v[1..], p[1..])
  }

  /** A text matches a concatenation of patterns iff it splits into parts that match them. */
  lemma {:induction false} MeansSplit(v: string, p: string, q: string)
    ensures Means(v, p + q) <==> exists k :: 0 <= k <= |v| && Means(v[..k], p) && Means(v[k..], q)
    decreases |p|
  {
    if p == "" {
      assert p + q == q;
      if Means(v, q) {
        assert Means(v[..0], p) && v[0..] == v;
      }
    } else {
      assert (p + q)[0] == p[0] && (p + q)[1..] == p[1..] + q;
      if p[0] == '%' {
        MeansSplitAny(v, p, q);
      } else if v != "" {
        MeansSplit(v[1..], p[1..], q);
        if k :| 0 <= k <= |v[1..]| && Means(v[1..][..k], p[1..]) && Means(v[1..][k..], q) {
          assert v[..k + 1][1..] == v[1..][..k] && v[k + 1..] == v[1..][k..];
        }
        if k :| 0 <= k <= |v| && Means(v[..k], p) && Means(v[k..], q) {
          assert v[..k][1..] == v[1..][..k - 1] && v[1..][k - 1..] == v[k..];
        }
      }
    }
  }

  lemma {:induction false} MeansSplitAny(v: string, p: string, q: string)
    requires p != "" && p[0] == '%'
    ensures (exists j :: 0 <= j <= |v| && Means(v[j..], p[1..] + q))
        <==> exists k :: 0 <= k <= |v| && Means(v[..k], p) && Means(v[k..], q)
    decreases |p|, 0
  {
    if j :| 0 <= j <= |v| && Means(v[j..], p[1..] + q) {
      MeansSplit(v[j..], p[1..], q);
      var k :| 0 <= k <= |v[j..]| && Means(v[j..][..k], p[1..]) && Means(v[j..][k..], q);
      assert v[..j + k][j..] == v[j..][..k] && v[j..][k..] == v[j + k..];
      assert Means(v[..j + k], p);
    }
    if k :| 0 <= k <= |v| && Means(v[..k], p) && Means(v[k..], q) {
      var j :| 0 <= j <= k && Means(v[..k][j..], p[1..]);
      assert v[j..][..k - j] == v[..k][j..] && v[j..][k - j..] == v[k..];
      MeansSplit(v[j..], p[1..], q);
    }
  }

  /** A pattern without `%` matches the texts of its length that agree with it wherever it has no `_`. */
  lemma {:induction false} PlaceByPlace(v: string, p: string)
    requires '%' !in p
    ensures Means(v, p) <==> |v| == |p| && forall i :: 0 <= i < |p| ==> p[i] == '_' || p[i] == v[i]
    decreases |p|
  {
    if p == "" {
    } else {
      assert p[0] in p && forall c :: c in p[1..] ==> c in p;
      if v != "" {
        PlaceByPlace(v[1..], p[1..]);
        assert forall i :: 0 <= i < |p[1..]| && i < |v[1..]| ==> p[1..][i] == p[i + 1] && v[1..][i] == v[i + 1];
        assert |v| == |p| ==> forall i :: 1 <= i < |p| ==> p[1..][i - 1] == p[i] && v[1..][i - 1] == v[i];
      }
    }
  }

  /** `%` matches every text. */
  lemma PercentMatchesAll(v: string)
    ensures Means(v, "%")
  {
    assert v[|v|..] == "" && "%"[1..] == "";
  }

  // ----- The table --------------------------------------------------------------------------

  /** The value the table program puts in the cell of a text prefix and a pattern prefix. */
  predicate Cell(v: string, p: string)
    decreases |p| + |v|
  {
    if p == "" then v == ""
    else
      var m, n := |p| - 1, |v| - 1;
      if p[m] == '%' then Cell(v, p[..m]) || (v != "" && Cell(v[..n], p))
      else v != "" && (p[m] == '_' || p[m] == v[n]) && Cell(v[..n], p[..m])
  }

  lemma {:induction false} CellIsMeaning(v: string, p: string)
    ensures Cell(v, p) <==> Means(v, p)
    decreases |p| + |v|
  {
    if p == "" {
    } else {
      var m, n := |p| - 1, |v| - 1;
      var c := [p[m]];
      assert p == p[..m] + c;
      MeansSplit(v, p[..m], c);
      if p[m] == '%' {
        PercentMeansAll(v, p[..m]);
        CellIsMeaning(v, p[..m]);
        if v != "" {
          CellIsMeaning(v[..n], p);
          MeansSplit(v[..n], p[..m], c);
          PercentMeansAll(v[..n], p[..m]);
          PrefixGrows(v, p[..m]);
        }
      } else if v != "" {
        CellIsMeaning(v[..n], p[..m]);
        LastIsLiteral(v, p[..m], p[m]);
      } else {
        LastIsLiteral(v, p[..m], p[m]);
      }
    }
  }

  ghost predicate SomePrefixMeans(v: string, p: string) {
    exists k :: 0 <= k <= |v| && Means(v[..k], p)
  }

  lemma PercentMeansAll(v: string, p: string)
    ensures (exists k :: 0 <= k <= |v| && Means(v[..k], p) && Means(v[k..], "%")) <==> SomePrefixMeans(v, p)
    ensures Means(v, p) ==> SomePrefixMeans(v, p)
  {
    forall k | 0 <= k <= |v| ensures Means(v[k..], "%") {
      assert Means(v[k..][|v[k..]|..], "%"[1..]);
    }
    assert v[..|v|] == v;
  }

  lemma PrefixGrows(v: string, p: string)
    requires v != ""
    ensures SomePrefixMeans(v, p) <==> Means(v, p) || SomePrefixMeans(v[..|v| - 1], p)
  {
    var w := v[..|v| - 1];
    assert v[..|v|] == v;
    assert forall k :: 0 <= k <= |w| ==> w[..k] == v[..k];
    if SomePrefixMeans(w, p) {
      var k :| 0 <= k <= |w| && Means(w[..k], p);
      assert Means(v[..k], p);
    }
  }

  lemma LastIsLiteral(v: string, p: string, c: char)
    requires c != '%'
    ensures (exists k :: 0 <= k <= |v| && Means(v[..k], p) && Means(v[k..], [c]))
        <==> v != "" && (c == '_' || c == v[|v| - 1]) && Means(v[..|v| - 1], p)
  {
    forall k | 0 <= k <= |v|
      ensures Means(v[k..], [c]) <==> k == |v| - 1 && (c == '_' || c == v[k])
    {
      assert [c][1..] == "";
      if k < |v| { assert v[k..][1..] == v[k + 1..]; }
    }
  }

  lemma CellStep(value: string, pattern: string, i: nat, j: nat)
    requires 1 <= i <= |pattern| && j <= |value|
    ensures var c := pattern[i - 1];
            Cell(value[..j], pattern[..i]) ==
            if j == 0 then c == '%' && Cell(value[..0], pattern[..i - 1])
            else if c == '%' then Cell(value[..j], pattern[..i - 1]) || Cell(value[..j - 1], pattern[..i])
            else (c == '_' || c == value[j - 1]) && Cell(value[..j - 1], pattern[..i - 1])
  {
    assert pattern[..i][..i - 1] == pattern[..i - 1];
    if j > 0 {
      assert value[..j][..j - 1] == value[..j - 1];
    }
  }

  ghost predicate RowDone(dp: array2<bool>, value: string, pattern: string, i: nat, upTo: nat)
    requires dp.Length0 == |pattern| + 1 && dp.Length1 == |value| + 1
    requires i <= |pattern| && upTo <= |value| + 1
    reads dp
  {
    forall j :: 0 <= j < upTo ==> dp[i, j] == Cell(value[..j], pattern[..i])
  }

  /** The inner loop: one more row from the row above it and its own first cell. */
  method FillRow(dp: array2<bool>, value: string, pattern: string, i: nat)
    requires dp.Length0 == |pattern| + 1 && dp.Length1 == |value| + 1 && 1 <= i <= |pattern|
    requires RowDone(dp, value, pattern, i - 1, |value| + 1) && RowDone(dp, value, pattern, i, 1)
    modifies dp
    ensures RowDone(dp, value, pattern, i, |value| + 1)
    ensures forall k, j :: 0 <= k <= |pattern| && 0 <= j <= |value| && k != i ==> dp[k, j] == old(dp[k, j])
  {
    for j := 1 to |value| + 1
      invariant RowDone(dp, value, pattern, i - 1, |value| + 1) && RowDone(dp, value, pattern, i, j)
      invariant forall k, j :: 0 <= k <= |pattern| && 0 <= j <= |value| && k != i ==> dp[k, j] == old(dp[k, j])
    {
      CellStep(value, pattern, i, j);
      var c := pattern[i - 1];
      dp[i, j] :=
        if c == '%' then dp[i - 1, j] || dp[i, j - 1]
        else if c == '_' then dp[i - 1, j - 1]
        else dp[i - 1, j - 1] && c == value[j - 1];
    }
  }

  /** The table program computes the meaning, for every text and pattern. */
  method LikeMatches(value: string, pattern: string) returns (b: bool)
    ensures b == Means(value, pattern)
  {
    var m, n := |pattern|, |value|;
    var dp := new bool[m + 1, n + 1]((i, j) => false);
    dp[0, 0] := true;
    for i := 1 to m + 1
      invariant RowDone(dp, value, pattern, 0, n + 1)
      invariant forall k :: 0 <= k < i ==> dp[k, 0] == Cell("", pattern[..k])
      invariant forall k :: i <= k <= m ==> !dp[k, 0]
    {
      CellStep(value, pattern, i, 0);
      if pattern[i - 1] == '%' {
        dp[i, 0] := dp[i - 1, 0];
      }
    }
    for i := 1 to m + 1
      invariant RowDone(dp, value, pattern, i - 1, n + 1)
      invariant forall k :: 0 <= k <= m ==> dp[k, 0] == Cell("", pattern[..k])
    {
      FillRow(dp, value, pattern, i);
    }
    assert pattern[..m] == pattern && value[..n] == value;
    CellIsMeaning(value, pattern);
    b := dp[m, n];
  }

  // ----- Shortcuts --------------------------------------------------------------------------

  /** The literal of a prefix-only pattern: one trailing `%` and no other wildcard. */
  function PrefixLiteral(p: string): Option<string> {
    if p == "" || p == "%" || p[|p| - 1] != '%' || '_' in p || '%' in p[..|p| - 1] then None
    else Some(p[..|p| - 1])
  }

  /** The literal of a contains-only pattern: one leading and one trailing `%` and no other wildcard. */
  function ContainsLiteral(p: string): Option<string> {
    if |p| < 3 || p[0] != '%' || p[|p| - 1] != '%' || '_' in p then None
    else
      var inner := p[1..|p| - 1];
      if inner == "" || '%' in inner then None else Some(inner)
  }

  ghost predicate Contains(v: string, needle: string) {
    exists i :: 0 <= i <= |v| && needle <= v[i..]
  }

  ghost predicate Literal(p: string) {
    '%' !in p && '_' !in p
  }

  lemma {:induction false} LiteralMeansItself(v: string, p: string)
    requires Literal(p)
    ensures Means(v, p) <==> v == p
    decreases |p|
  {
    if p == "" {
    } else {
      assert p[0] in p && forall c :: c in p[1..] ==> c in p;
      if v != "" {
        LiteralMeansItself(v[1..], p[1..]);
        assert v == [v[0]] + v[1..] && p == [p[0]] + p[1..];
      }
    }
  }

  /** A literal followed by `%` matches exactly the texts that start with it. */
  lemma LiteralPercent(v: string, p: string)
    requires Literal(p)
    ensures Means(v, p + "%") <==> p <= v
  {
    MeansSplit(v, p, "%");
    PercentMeansAll(v, p);
    forall k | 0 <= k <= |v| { LiteralMeansItself(v[..k], p); }
    if p <= v {
      assert v[..|p|] == p;
    }
  }

  /** Where the prefix recogniser answers, `LIKE` is "starts with"; it answers on exactly those patterns. */
  lemma PrefixShortcut(v: string, p: string)
    ensures PrefixLiteral(p).Some? ==> (Means(v, p) <==> PrefixLiteral(p).value <= v)
    ensures PrefixLiteral(p).Some? <==> exists lit :: lit != "" && Literal(lit) && p == lit + "%"
  {
    if PrefixLiteral(p).Some? {
      var lit := PrefixLiteral(p).value;
      assert p == lit + "%";
      assert Literal(lit) by {
        assert forall c :: c in lit ==> c in p;
      }
      LiteralPercent(v, lit);
    }
    if lit :| lit != "" && Literal(lit) && p == lit + "%" {
      assert p[..|p| - 1] == lit && p[|p| - 1] == '%';
    }
  }

  /** Where the contains recogniser answers, `LIKE` is "contains"; it answers on exactly those patterns. */
  lemma ContainsShortcut(v: string, p: string)
    ensures ContainsLiteral(p).Some? ==> (Means(v, p) <==> Contains(v, ContainsLiteral(p).value))
    ensures ContainsLiteral(p).Some? <==> exists lit :: lit != "" && Literal(lit) && p == "%" + lit + "%"
  {
    if ContainsLiteral(p).Some? {
      var lit := ContainsLiteral(p).value;
      assert p == "%" + lit + "%";
      assert Literal(lit) by {
        assert forall c :: c in lit ==> c in p;
      }
      assert p[1..] == lit + "%";
      forall k | 0 <= k <= |v| { LiteralPercent(v[k..], lit); }
    }
    if lit :| lit != "" && Literal(lit) && p == "%" + lit + "%" {
      assert p[1..|p| - 1] == lit && p[0] == '%' && p[|p| - 1] == '%';
      assert forall c :: c in p ==> c in lit || c == '%';
    }
  }
}
