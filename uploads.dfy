/** The filename sanitiser of the `/save` endpoint:
    `name.replace("..", "").lstrip("/\\")`.  Every occurrence of two dots is
    removed in one left-to-right pass, then every leading forward or backward
    slash is stripped. */
module Uploads {

  /** The characters `lstrip` removes: forward and backward slash. */
  predicate IsSeparator(c: char) {
    c == '/' || c == '\\'
  }

  /** `s` contains two consecutive dots. */
  predicate HasDotDot(s: string) {
    exists i :: 0 <= i < |s| - 1 && s[i] == '.' && s[i + 1] == '.'
  }

  /** Python's `s.replace("..", "")`: scanning from the left, each match is
      removed and the scan resumes after it, so matches never overlap. */
  function RemoveDotDot(s: string): (r: string)
    ensures |r| <= |s|
    ensures !HasDotDot(r)
    ensures s != [] && s[0] != '.' ==> r != [] && r[0] == s[0]
  {
    if |s| >= 2 && s[0] == '.' && s[1] == '.' then RemoveDotDot(s[2..])
    else if s == [] then []
    else
      var rest := RemoveDotDot(s[1..]);
      assert forall i :: 1 <= i < |rest| ==> ([s[0]] + rest)[i] == rest[i - 1];
      [s[0]] + rest
  }

  /** Python's `s.lstrip("/\\")`: the longest suffix of `s` that does not
      begin with a separator. */
  function StripLeadingSeparators(s: string): (r: string)
    ensures |r| <= |s| && r == s[|s| - |r|..]
    ensures forall i :: 0 <= i < |s| - |r| ==> IsSeparator(s[i])
    ensures r == [] || !IsSeparator(r[0])
  {
    if s != [] && IsSeparator(s[0]) then
      var r := StripLeadingSeparators(s[1..]);
      assert forall i :: 1 <= i < |s| - |r| ==> s[i] == s[1..][i - 1];
      r
    else s
  }

  /** The name a file is saved under, relative to the upload root: it never
      contains `..` and never begins with a separator. */
  function SanitizeFilename(name: string): (r: string)
    ensures !HasDotDot(r)
    ensures r == [] || !IsSeparator(r[0])
  {
    var s := RemoveDotDot(name);
    var r := StripLeadingSeparators(s);
    NoDotDotSuffix(s, |s| - |r|);
    r
  }

  lemma NoDotDotSuffix(s: string, k: nat)
    requires k <= |s| && !HasDotDot(s)
    ensures !HasDotDot(s[k..])
  {
    forall i | 0 <= i < |s[k..]| - 1
      ensures !(s[k..][i] == '.' && s[k..][i + 1] == '.')
    {
      assert s[k..][i] == s[k + i] && s[k..][i + 1] == s[k + i + 1];
    }
  }

  /** Removing `..` does nothing to a string that has none. */
  lemma {:induction false} RemoveDotDotIdentity(s: string)
    requires !HasDotDot(s)
    ensures RemoveDotDot(s) == s
  {
    if s != [] {
      if |s| >= 2 && s[0] == '.' {
        assert s[1] != '.';
      }
      assert !HasDotDot(s[1..]) by {
        forall i | 0 <= i < |s[1..]| - 1
          ensures !(s[1..][i] == '.' && s[1..][i + 1] == '.')
        {
          assert s[1..][i] == s[i + 1] && s[1..][i + 1] == s[i + 2];
        }
      }
      RemoveDotDotIdentity(s[1..]);
      assert s == [s[0]] + s[1..];
    }
  }

  /** Sanitising a sanitised name changes nothing. */
  lemma SanitizeIdempotent(name: string)
    ensures SanitizeFilename(SanitizeFilename(name)) == SanitizeFilename(name)
  {
    var once := SanitizeFilename(name);
    RemoveDotDotIdentity(once);
  }

  /** The characters of `s` other than dots, in order. */
  function NonDots(s: string): string {
    if s == [] then [] else (if s[0] == '.' then [] else [s[0]]) + NonDots(s[1..])
  }

  /** Removing `..` only ever removes dots: every other character survives,
      in order. */
  lemma {:induction false} RemoveDotDotKeepsNonDots(s: string)
    ensures NonDots(RemoveDotDot(s)) == NonDots(s)
  {
    if |s| >= 2 && s[0] == '.' && s[1] == '.' {
      RemoveDotDotKeepsNonDots(s[2..]);
      assert s[1..][1..] == s[2..];
    } else if s != [] {
      RemoveDotDotKeepsNonDots(s[1..]);
      var r := RemoveDotDot(s);
      assert r == [s[0]] + RemoveDotDot(s[1..]);
      assert r[1..] == RemoveDotDot(s[1..]);
    }
  }

  /** `k` dots. */
  function Dots(k: nat): (s: string)
    ensures |s| == k
  {
    if k == 0 then [] else ['.'] + Dots(k - 1)
  }

  /** A run of `k` dots keeps `k % 2` of them. */
  lemma {:induction false} DotRun(k: nat)
    ensures RemoveDotDot(Dots(k)) == Dots(k % 2)
  {
    DotsThen(k, []);
    assert Dots(k) + [] == Dots(k) && Dots(k % 2) + [] == Dots(k % 2);
  }

  /** A run of dots followed by something that is not a dot keeps `k % 2`
      of its dots, and the rest is processed on its own. */
  lemma {:induction false} DotsThen(k: nat, y: string)
    requires y == [] || y[0] != '.'
    ensures RemoveDotDot(Dots(k) + y) == Dots(k % 2) + RemoveDotDot(y)
  {
    if k >= 2 {
      var rest := Dots(k - 2) + y;
      DotsPair(k);
      AppendAssoc(['.', '.'], Dots(k - 2), y);
      assert Dots(k) + y == ['.', '.'] + rest;
      PairRemoved(rest);
      DotsThen(k - 2, y);
      assert (k - 2) % 2 == k % 2;
    } else if k == 1 {
      assert Dots(1) == ['.'] + Dots(0) && Dots(0) == [];
      assert Dots(1) + y == ['.'] + y;
      LoneDotKept(y);
    } else {
      assert Dots(0) + y == y;
    }
  }

  /** `k` dots are two dots followed by `k - 2` dots. */
  lemma DotsPair(k: nat)
    requires k >= 2
    ensures Dots(k) == ['.', '.'] + Dots(k - 2)
  {
    assert Dots(k) == ['.'] + (['.'] + Dots(k - 2));
  }

  /** A leading `..` is removed and the scan resumes after it. */
  lemma PairRemoved(rest: string)
    ensures RemoveDotDot(['.', '.'] + rest) == RemoveDotDot(rest)
  {
    assert (['.', '.'] + rest)[2..] == rest;
  }

  /** A single dot before something that is not a dot survives. */
  lemma LoneDotKept(y: string)
    requires y == [] || y[0] != '.'
    ensures RemoveDotDot(['.'] + y) == ['.'] + RemoveDotDot(y)
  {
    assert (['.'] + y)[1..] == y;
  }

  /** The replacement works on `a + b` as on `a` and `b` separately when `a`
      does not end in a dot, since then no match straddles the two. */
  lemma {:induction false} RemoveDotDotAppend(a: string, b: string)
    requires a == [] || a[|a| - 1] != '.'
    ensures RemoveDotDot(a + b) == RemoveDotDot(a) + RemoveDotDot(b)
  {
    var s := a + b;
    if a == [] {
      assert s == b;
    } else if |a| >= 2 && a[0] == '.' && a[1] == '.' {
      assert |a| > 2;
      var a' := a[2..];
      assert a'[|a'| - 1] == a[|a| - 1];
      assert s[0] == '.' && s[1] == '.';
      assert s[2..] == a' + b;
      RemoveDotDotAppend(a', b);
      assert RemoveDotDot(s) == RemoveDotDot(a' + b);
      assert RemoveDotDot(a) == RemoveDotDot(a');
    } else {
      var a' := a[1..];
      assert a' == [] || a'[|a'| - 1] == a[|a| - 1];
      assert a[0] == '.' ==> |a| >= 2 && a[1] != '.';
      assert s[0] == a[0] && (|a| >= 2 ==> s[1] == a[1]);
      assert s[1..] == a' + b;
      RemoveDotDotAppend(a', b);
      assert RemoveDotDot(s) == [a[0]] + RemoveDotDot(a' + b);
      assert RemoveDotDot(a) == [a[0]] + RemoveDotDot(a');
      AppendAssoc([a[0]], RemoveDotDot(a'), RemoveDotDot(b));
    }
  }

  lemma DropAppend(x: string, y: string, n: nat)
    requires n <= |x|
    ensures (x + y)[n..] == x[n..] + y
  {
  }

  lemma AppendAssoc(x: string, y: string, z: string)
    ensures x + (y + z) == (x + y) + z
  {
  }

  /** A run of `k` dots between two characters that are not dots keeps
      `k % 2` of them: `a..b.txt` becomes `ab.txt`, `a...b` becomes `a.b`. */
  lemma RunInName(x: string, k: nat, y: string)
    requires x == [] || x[|x| - 1] != '.'
    requires y == [] || y[0] != '.'
    ensures RemoveDotDot(x + Dots(k) + y) == RemoveDotDot(x) + Dots(k % 2) + RemoveDotDot(y)
  {
    AppendAssoc(x, Dots(k), y);
    RemoveDotDotAppend(x, Dots(k) + y);
    DotsThen(k, y);
    AppendAssoc(RemoveDotDot(x), Dots(k % 2), RemoveDotDot(y));
  }

  /** A leading parent step, `../` or `..\`, is dropped: the name is saved
      where it would be saved without it, so `../../etc/passwd` lands on
      `etc/passwd` inside the upload root. */
  lemma {:induction false} ParentStepIgnored(sep: char, t: string)
    requires IsSeparator(sep)
    ensures SanitizeFilename(['.', '.', sep] + t) == SanitizeFilename(t)
  {
    var s := ['.', '.', sep] + t;
    assert s[2..] == [sep] + t;
    assert ([sep] + t)[1..] == t;
    assert RemoveDotDot(s) == [sep] + RemoveDotDot(t);
    var r := [sep] + RemoveDotDot(t);
    assert r[1..] == RemoveDotDot(t);
  }
}
