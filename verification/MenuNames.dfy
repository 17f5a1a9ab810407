/** Table names of the menu: menu_lev1 followed by the index path of an element, one underscore and one number a level. */
module MenuNames {

  const ROOT: string := "menu_lev1"

  function Digit(d: nat): char
    requires d < 10
  {
    "0123456789"[d]
  }

  /** strconv.Itoa for a natural number */
  function Itoa(n: nat): (r: string)
    ensures r != [] && '_' !in r
  {
    if n < 10 then [Digit(n)] else Itoa(n / 10) + [Digit(n % 10)]
  }

  lemma {:induction false} ItoaInjective(a: nat, b: nat)
    requires Itoa(a) == Itoa(b)
    ensures a == b
    decreases a + b
  {
    var s, t := Itoa(a), Itoa(b);
    assert s[|s| - 1] == Digit(a % 10) && t[|t| - 1] == Digit(b % 10);
    assert a % 10 == b % 10;
    if a >= 10 {
      assert |s| > 1 && b >= 10;
      assert s[..|s| - 1] == Itoa(a / 10) && t[..|t| - 1] == Itoa(b / 10);
      ItoaInjective(a / 10, b / 10);
    }
  }

  function DecimalValue(s: string): int {
    if s == [] then 0 else DecimalValue(s[..|s| - 1]) * 10 + (s[|s| - 1] as int - '0' as int)
  }

  /** The number in decimal digits, without leading zeros */
  lemma {:induction false} ItoaDecimal(n: nat)
    ensures DecimalValue(Itoa(n)) == n
    ensures forall i | 0 <= i < |Itoa(n)| :: '0' <= Itoa(n)[i] <= '9'
    ensures |Itoa(n)| > 1 ==> Itoa(n)[0] != '0'
    decreases n
  {
    var s := Itoa(n);
    DigitDecimal(n % 10);
    if n < 10 {
      assert s[..0] == [];
    } else {
      ItoaDecimal(n / 10);
      assert s[..|s| - 1] == Itoa(n / 10);
      if n < 100 {
        DigitDecimal(n / 10);
      }
    }
  }

  lemma DigitDecimal(d: nat)
    requires d < 10
    ensures Digit(d) as int == '0' as int + d
  {
  }

  /** The name of the element at an index path */
  function Name(path: seq<nat>): (r: string)
    ensures r != []
  {
    if path == [] then ROOT else Name(path[..|path| - 1]) + "_" + Itoa(path[|path| - 1])
  }

  lemma NameMore(path: seq<nat>, i: nat)
    ensures Name(path + [i]) == Name(path) + "_" + Itoa(i)
  {
    assert (path + [i])[..|path|] == path;
  }

  function Underscores(s: string): nat {
    if s == [] then 0 else Underscores(s[..|s| - 1]) + if s[|s| - 1] == '_' then 1 else 0
  }

  lemma {:induction false} UnderscoresConcat(a: string, b: string)
    ensures Underscores(a + b) == Underscores(a) + Underscores(b)
    decreases |b|
  {
    if b == [] {
      assert a + b == a;
    } else {
      assert (a + b)[..|a + b| - 1] == a + b[..|b| - 1];
      UnderscoresConcat(a, b[..|b| - 1]);
    }
  }

  lemma {:induction false} NoUnderscores(s: string)
    requires '_' !in s
    ensures Underscores(s) == 0
    decreases |s|
  {
    if s != [] {
      NoUnderscores(s[..|s| - 1]);
    }
  }

  lemma {:induction false} NameUnderscores(path: seq<nat>)
    ensures Underscores(Name(path)) == |path| + 1
    decreases |path|
  {
    if path == [] {
      UnderscoresConcat("menu_", "lev1");
      NoUnderscores("lev1");
      UnderscoresConcat("menu", "_");
      NoUnderscores("menu");
      assert "menu_" == "menu" + "_" && ROOT == "menu_" + "lev1";
      assert Underscores("_") == 1 by {
        assert "_"[..0] == "";
      }
    } else {
      var front, last := path[..|path| - 1], Itoa(path[|path| - 1]);
      NameUnderscores(front);
      UnderscoresConcat(Name(front) + "_", last);
      UnderscoresConcat(Name(front), "_");
      NoUnderscores(last);
      assert Underscores("_") == 1 by {
        assert "_"[..0] == "";
      }
    }
  }

  /** Where the last underscore of a name stands */
  function LastIndex(s: string): (i: int)
    ensures -1 <= i < |s| && (i >= 0 ==> s[i] == '_') && forall k | i < k < |s| :: s[k] != '_'
  {
    if s == [] then -1 else if s[|s| - 1] == '_' then |s| - 1 else LastIndex(s[..|s| - 1])
  }

  lemma LastIndexOfName(path: seq<nat>)
    requires path != []
    ensures LastIndex(Name(path)) == |Name(path[..|path| - 1])|
    ensures Name(path)[..|Name(path[..|path| - 1])|] == Name(path[..|path| - 1])
  {
    var s, front, last := Name(path), Name(path[..|path| - 1]), Itoa(path[|path| - 1]);
    assert s[|front|] == '_';
    forall k | |front| < k < |s|
      ensures s[k] != '_'
    {
      assert s[k] == last[k - |front| - 1];
    }
  }

  /** Different paths have different names. */
  lemma {:induction false} NameInjective(p: seq<nat>, q: seq<nat>)
    requires Name(p) == Name(q)
    ensures p == q
    decreases |p|
  {
    NameUnderscores(p);
    NameUnderscores(q);
    if p != [] {
      var a, b := p[..|p| - 1], q[..|q| - 1];
      LastIndexOfName(p);
      LastIndexOfName(q);
      assert Name(a) == Name(b);
      NameInjective(a, b);
      var n := |Name(a)| + 1;
      assert Name(p)[n..] == Itoa(p[|p| - 1]) && Name(q)[n..] == Itoa(q[|q| - 1]);
      ItoaInjective(p[|p| - 1], q[|q| - 1]);
      assert p == a + [p[|p| - 1]] && q == b + [q[|q| - 1]];
    }
  }

  /** Where the walk cuts a name for level lev: at its underscore number lev, counted from zero. */
  function Cut(s: string, lev: nat, k: nat, count: nat): (r: nat)
    requires k <= |s|
    decreases |s| - k
  {
    if k == |s| then count
    else if s[k] == '_' then (if count == lev then k else Cut(s, lev, k + 1, count + 1))
    else Cut(s, lev, k + 1, count)
  }

  method FindCut(s: string, lev: nat) returns (addnum: nat)
    ensures addnum == Cut(s, lev, 0, 0)
  {
    addnum := 0;
    for k := 0 to |s|
      invariant Cut(s, lev, 0, 0) == Cut(s, lev, k, addnum)
    {
      if s[k] == '_' {
        if addnum == lev {
          addnum := k;
          return;
        }
        addnum := addnum + 1;
      }
    }
  }

  /** With the element's own name in front, whatever follows, the cut for its children's level leaves that name. */
  lemma CutAtName(path: seq<nat>, s: string)
    requires Name(path) + "_" <= s
    ensures Cut(s, |path| + 1, 0, 0) == |Name(path)|
  {
    NameUnderscores(path);
    assert s[..0] == "";
    CutFrom(path, s, 0);
  }

  lemma OneMoreChar(s: string, k: nat)
    requires k < |s|
    ensures Underscores(s[..k + 1]) == Underscores(s[..k]) + if s[k] == '_' then 1 else 0
  {
    assert s[..k + 1][..k] == s[..k];
  }

  lemma PrefixUnderscores(s: string, k: nat, n: nat)
    requires k <= n <= |s|
    ensures Underscores(s[..k]) <= Underscores(s[..n])
  {
    UnderscoresConcat(s[..k], s[k..n]);
    assert s[..k] + s[k..n] == s[..n];
  }

  lemma {:induction false} CutFrom(path: seq<nat>, s: string, k: nat)
    requires Name(path) + "_" <= s && k <= |Name(path)| && Underscores(Name(path)) == |path| + 1
    ensures Cut(s, |path| + 1, k, Underscores(s[..k])) == |Name(path)|
    decreases |Name(path)| - k
  {
    hide Underscores, Name;
    var n := |Name(path)|;
    assert s[..n] == Name(path) && s[n] == '_';
    if k < n {
      OneMoreChar(s, k);
      PrefixUnderscores(s, k + 1, n);
      CutFrom(path, s, k + 1);
    }
  }
}
