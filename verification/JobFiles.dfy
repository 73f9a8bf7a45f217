/** Names of the files shared by the master and the workers, and why no two of
    them collide. */
module JobFiles {

  /** The files of one job: a map task's output for a reduce task, a reduce task's
      result, and the merged output. */
  datatype Name = Inter(m: nat, r: nat) | Res(r: nat) | Output

  function Itoa(n: nat): (s: string)
    ensures s != [] && forall c :: c in s ==> '0' <= c <= '9'
  {
    (if n < 10 then [] else Itoa(n / 10)) + [(n % 10) as char + '0']
  }

  function Atoi(s: string): int {
    if s == [] then 0 else 10 * Atoi(s[..|s| - 1]) + (s[|s| - 1] as int - '0' as int)
  }

  lemma {:induction false} AtoiItoa(n: nat)
    ensures Atoi(Itoa(n)) == n
  {
    if n < 10 {
      assert Itoa(n)[..|Itoa(n)| - 1] == [];
    } else {
      AtoiItoa(n / 10);
      assert Itoa(n)[..|Itoa(n)| - 1] == Itoa(n / 10);
    }
  }

  /** reduceName and mergeName of common.go and the output name of merge. */
  function Path(job: string, name: Name): string {
    "mrtmp." + job + match name
      case Inter(m, r) => "-" + (Itoa(m) + "-" + Itoa(r))
      case Res(r) => "-" + ("res" + "-" + Itoa(r))
      case Output => ""
  }

  lemma PathExamples()
    ensures Path("kjv", Inter(12, 3)) == "mrtmp.kjv-12-3"
    ensures Path("kjv", Res(10)) == "mrtmp.kjv-res-10"
    ensures Path("kjv", Output) == "mrtmp.kjv"
  {
    assert Itoa(1) == "1" && Itoa(3) == "3";
    assert Itoa(12) == "12" && Itoa(10) == "10";
  }

  lemma Head(a: string, b: string)
    requires '-' !in a
    ensures (a + "-" + b)[0] == '-' <==> a == []
  {
    if a != [] { assert (a + "-" + b)[0] == a[0]; }
  }

  lemma {:induction false} SplitUnique(a: string, b: string, c: string, d: string)
    requires a + "-" + b == c + "-" + d && '-' !in a && '-' !in c
    ensures a == c && b == d
    decreases |a|
  {
    var s, t := a + "-" + b, c + "-" + d;
    if a == [] || c == [] {
      Head(a, b);
      Head(c, d);
      assert s[1..] == t[1..];
      assert b == s[1..] && d == t[1..];
    } else {
      assert s[0] == a[0] && t[0] == c[0];
      assert s[1..] == a[1..] + "-" + b && t[1..] == c[1..] + "-" + d;
      SplitUnique(a[1..], b, c[1..], d);
      assert a == [a[0]] + a[1..] && c == [c[0]] + c[1..];
    }
  }

  lemma TailEqual(p: string, a: string, b: string)
    requires p + a == p + b
    ensures a == b
  {
    assert a == (p + a)[|p|..] && b == (p + b)[|p|..];
  }

  /** The two parts of a name after the job. */
  function Parts(name: Name): (string, string)
    requires !name.Output?
  {
    match name
    case Inter(m, r) => (Itoa(m), Itoa(r))
    case Res(r) => ("res", Itoa(r))
  }

  /** Distinct files of a job have distinct paths. */
  lemma PathInjective(job: string, x: Name, y: Name)
    requires Path(job, x) == Path(job, y)
    ensures x == y
  {
    if x.Output? || y.Output? {
      assert |Path(job, x)| == |Path(job, y)|;
    } else {
      var (a, b) := Parts(x);
      var (c, d) := Parts(y);
      assert Path(job, x) == ("mrtmp." + job) + ("-" + (a + "-" + b));
      assert Path(job, y) == ("mrtmp." + job) + ("-" + (c + "-" + d));
      TailEqual("mrtmp." + job, "-" + (a + "-" + b), "-" + (c + "-" + d));
      TailEqual("-", a + "-" + b, c + "-" + d);
      SplitUnique(a, b, c, d);
      AtoiItoa(x.r);
      AtoiItoa(y.r);
      if x.Inter? { AtoiItoa(x.m); assert Itoa(x.m)[0] in Itoa(x.m); }
      if y.Inter? { AtoiItoa(y.m); assert Itoa(y.m)[0] in Itoa(y.m); }
    }
  }
}
