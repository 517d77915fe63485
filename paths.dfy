/** The string operations the tool applies to file names: decimal formatting
    of the segment counter, POSIX `os.path.join` and `os.path.basename`,
    `str.replace`, `str.split(c)[0]` and `str.join`, and the inverse
    `str.split` used to state that a joined list can be taken apart again. */
module Paths {

  function DigitChar(d: nat): (c: char)
    requires d < 10
    ensures '0' <= c <= '9'
  {
    "0123456789"[d]
  }

  predicate IsDigits(s: string)
  {
    forall i :: 0 <= i < |s| ==> '0' <= s[i] <= '9'
  }

  /** Decimal text of n, as Python's f"{n}" writes it for a non-negative int. */
  function NatStr(n: nat): (s: string)
    ensures |s| > 0 && IsDigits(s)
    ensures n < 10 <==> |s| == 1
  {
    if n < 10 then [DigitChar(n)] else NatStr(n / 10) + [DigitChar(n % 10)]
  }

  lemma DigitCharInjective(a: nat, b: nat)
    requires a < 10 && b < 10 && DigitChar(a) == DigitChar(b)
    ensures a == b
  {
  }

  /** Different counters give different names. */
  lemma {:induction false} NatStrInjective(a: nat, b: nat)
    requires NatStr(a) == NatStr(b)
    ensures a == b
  {
    if a < 10 || b < 10 {
      assert |NatStr(a)| == 1 && |NatStr(b)| == 1;
      DigitCharInjective(a, b);
    } else {
      var sa, sb := NatStr(a), NatStr(b);
      assert sa[|sa| - 1] == DigitChar(a % 10) && sb[|sb| - 1] == DigitChar(b % 10);
      DigitCharInjective(a % 10, b % 10);
      assert sa[..|sa| - 1] == NatStr(a / 10) && sb[..|sb| - 1] == NatStr(b / 10);
      NatStrInjective(a / 10, b / 10);
    }
  }

  /** What os.path.join puts in front of a relative second component: the
      first one, with a '/' added unless it is empty or already ends in one. */
  function JoinPrefix(a: string): string
  {
    if a == "" || a[|a| - 1] == '/' then a else a + "/"
  }

  /** POSIX os.path.join(a, b) for two components. */
  function PathJoin(a: string, b: string): (p: string)
    ensures |b| > 0 && b[0] == '/' ==> p == b
    ensures |p| >= |b|
  {
    if |b| > 0 && b[0] == '/' then b
    else if a == "" || a[|a| - 1] == '/' then a + b
    else a + "/" + b
  }

  lemma PathJoinRelative(a: string, b: string)
    requires |b| == 0 || b[0] != '/'
    ensures PathJoin(a, b) == JoinPrefix(a) + b
  {
    assert a + "/" + b == (a + "/") + b;
  }

  /** The name under which whole-row mode writes segment k: os.path.join(dir, f"{k}.tmp"). */
  function TmpName(dir: string, k: nat): (p: string)
    ensures |p| > 0
  {
    PathJoin(dir, NatStr(k) + ".tmp")
  }

  /** Segment names of one run never coincide. */
  lemma TmpNameInjective(dir: string, a: nat, b: nat)
    requires TmpName(dir, a) == TmpName(dir, b)
    ensures a == b
  {
    var na, nb := NatStr(a) + ".tmp", NatStr(b) + ".tmp";
    assert '/' !in na && '/' !in nb by {
      assert forall i :: 0 <= i < |NatStr(a)| ==> na[i] == NatStr(a)[i];
      assert forall i :: 0 <= i < |NatStr(b)| ==> nb[i] == NatStr(b)[i];
    }
    BasenameOfJoin(dir, na);
    BasenameOfJoin(dir, nb);
    assert na[..|na| - 4] == NatStr(a) && nb[..|nb| - 4] == NatStr(b);
    NatStrInjective(a, b);
  }

  /** POSIX os.path.basename: everything after the last '/'. */
  function Basename(p: string): (r: string)
    ensures '/' !in r
  {
    if p == [] then []
    else if p[|p| - 1] == '/' then []
    else Basename(p[..|p| - 1]) + [p[|p| - 1]]
  }

  lemma {:induction false} BasenameOfTail(pre: string, b: string)
    requires '/' !in b
    requires pre == [] || pre[|pre| - 1] == '/'
    ensures Basename(pre + b) == b
    decreases |b|
  {
    if b == [] {
      assert pre + b == pre;
    } else {
      var p := pre + b;
      var init := b[..|b| - 1];
      assert p[..|p| - 1] == pre + init;
      assert p[|p| - 1] == b[|b| - 1];
      assert b[|b| - 1] in b;
      BasenameOfTail(pre, init);
      assert Basename(p) == Basename(pre + init) + [b[|b| - 1]];
      assert b == init + [b[|b| - 1]];
    }
  }

  /** The last component of os.path.join(dir, name) is name itself. */
  lemma BasenameOfJoin(dir: string, name: string)
    requires '/' !in name
    ensures Basename(PathJoin(dir, name)) == name
  {
    assert |name| > 0 ==> name[0] in name;
    if dir == "" || dir[|dir| - 1] == '/' {
      BasenameOfTail(dir, name);
    } else {
      assert dir + "/" + name == (dir + "/") + name;
      BasenameOfTail(dir + "/", name);
    }
  }

  /** Python's s.replace(pat, rep): every non-overlapping occurrence of pat,
      scanning from the left, is replaced by rep. */
  function ReplaceAll(s: string, pat: string, rep: string): string
    requires |pat| > 0
    decreases |s|
  {
    if |s| < |pat| then s
    else if s[..|pat|] == pat then rep + ReplaceAll(s[|pat|..], pat, rep)
    else [s[0]] + ReplaceAll(s[1..], pat, rep)
  }

  /** Renaming "<n>.tmp" by replacing "tmp" with "mp4" changes only the
      extension: the digits never contain the pattern. */
  lemma {:induction false} ReplaceTmpInCounterName(digits: string)
    requires IsDigits(digits)
    ensures ReplaceAll(digits + ".tmp", "tmp", "mp4") == digits + ".mp4"
    decreases |digits|
  {
    var s := digits + ".tmp";
    if digits == [] {
      assert s[..3] == ".tm";
      assert s[1..] == "tmp";
      assert ReplaceAll("tmp", "tmp", "mp4") == "mp4" + ReplaceAll("", "tmp", "mp4");
    } else {
      assert s[0] == digits[0];
      assert s[..3] != "tmp" by { assert s[..3][0] == digits[0]; }
      assert s[1..] == digits[1..] + ".tmp";
      ReplaceTmpInCounterName(digits[1..]);
      assert digits == [digits[0]] + digits[1..];
    }
  }

  /** Python's s.split(c)[0]: the text before the first c, or all of s. */
  function BeforeFirst(s: string, c: char): string
  {
    if s == [] then []
    else if s[0] == c then []
    else [s[0]] + BeforeFirst(s[1..], c)
  }

  lemma {:induction false} BeforeFirstSkips(a: string, c: char, b: string)
    requires c !in a
    ensures BeforeFirst(a + b, c) == a + BeforeFirst(b, c)
    decreases |a|
  {
    if a != [] {
      assert (a + b)[0] == a[0];
      assert (a + b)[1..] == a[1..] + b;
      BeforeFirstSkips(a[1..], c, b);
      assert a == [a[0]] + a[1..];
    } else {
      assert a + b == b;
    }
  }

  /** split(c)[0] never contains c. */
  lemma {:induction false} BeforeFirstOmitsSeparator(s: string, c: char)
    ensures c !in BeforeFirst(s, c)
    decreases |s|
  {
    if s != [] && s[0] != c {
      BeforeFirstOmitsSeparator(s[1..], c);
    }
  }

  /** split(c)[0] is a prefix of the string. */
  lemma {:induction false} BeforeFirstIsPrefix(s: string, c: char)
    ensures BeforeFirst(s, c) <= s
    decreases |s|
  {
    if s != [] && s[0] != c {
      BeforeFirstIsPrefix(s[1..], c);
      assert s == [s[0]] + s[1..];
    }
  }

  /** Once a contains c, what follows a does not matter. */
  lemma {:induction false} BeforeFirstStops(a: string, c: char, b: string)
    requires c in a
    ensures BeforeFirst(a + b, c) == BeforeFirst(a, c)
    decreases |a|
  {
    assert (a + b)[0] == a[0];
    if a[0] != c {
      assert a[1..] + b == (a + b)[1..];
      BeforeFirstStops(a[1..], c, b);
    }
  }

  /** Python's sep.join(parts) for a one-character separator. */
  function JoinWith(parts: seq<string>, sep: char): string
  {
    if |parts| == 0 then ""
    else if |parts| == 1 then parts[0]
    else parts[0] + [sep] + JoinWith(parts[1..], sep)
  }

  /** Python's s.split(sep) for a one-character separator: the pieces
      between separators, always at least one. */
  function SplitOn(s: string, sep: char): (r: seq<string>)
    ensures |r| > 0
    decreases |s|
  {
    if s == [] then [[]]
    else
      var rest := SplitOn(s[1..], sep);
      if s[0] == sep then [[]] + rest else [[s[0]] + rest[0]] + rest[1..]
  }

  /** split(c)[0] is the first piece of split(c). */
  lemma {:induction false} BeforeFirstIsFirstPiece(s: string, c: char)
    ensures BeforeFirst(s, c) == SplitOn(s, c)[0]
    decreases |s|
  {
    if s != [] {
      BeforeFirstIsFirstPiece(s[1..], c);
    }
  }

  lemma {:induction false} SplitOnPlain(a: string, sep: char)
    requires sep !in a
    ensures SplitOn(a, sep) == [a]
    decreases |a|
  {
    if a != [] {
      SplitOnPlain(a[1..], sep);
      assert a == [a[0]] + a[1..];
    }
  }

  lemma {:induction false} SplitOnHead(a: string, sep: char, b: string)
    requires sep !in a
    ensures SplitOn(a + [sep] + b, sep) == [a] + SplitOn(b, sep)
    decreases |a|
  {
    var s := a + [sep] + b;
    if a == [] {
      assert s[1..] == b;
    } else {
      assert s[0] == a[0];
      assert s[1..] == a[1..] + [sep] + b;
      SplitOnHead(a[1..], sep, b);
      assert a == [a[0]] + a[1..];
    }
  }

  /** Splitting a joined list on its separator gives the list back, as long as
      no part contains the separator. */
  lemma {:induction false} SplitJoinRoundTrip(parts: seq<string>, sep: char)
    requires |parts| > 0
    requires forall i :: 0 <= i < |parts| ==> sep !in parts[i]
    ensures SplitOn(JoinWith(parts, sep), sep) == parts
    decreases |parts|
  {
    if |parts| == 1 {
      SplitOnPlain(parts[0], sep);
    } else {
      SplitJoinRoundTrip(parts[1..], sep);
      SplitOnHead(parts[0], sep, JoinWith(parts[1..], sep));
      assert parts == [parts[0]] + parts[1..];
    }
  }
}
