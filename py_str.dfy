/** The few Python `str` operations the icon helpers rely on, on `seq<char>`:
    `endswith`, `lstrip`, `split` with a one-character separator, and `join`
    (the inverse of `split`, used to state what `split` computes). */
module PyStr {

  /** `os.sep` on POSIX systems. */
  const Sep: char := '/'

  /** `s.endswith(suffix)` for a single suffix. */
  predicate EndsWith(s: string, suffix: string) {
    |suffix| <= |s| && s[|s| - |suffix|..] == suffix
  }

  /** Number of occurrences of `c` in `s`. */
  function Occurrences(s: string, c: char): nat {
    if s == [] then 0 else (if s[0] == c then 1 else 0) + Occurrences(s[1..], c)
  }

  /** `s.lstrip(c)`: drops every leading `c`. The result is the suffix of `s`
      left after a run made only of `c`, and it does not start with `c`. */
  function LStrip(s: string, c: char): (r: string)
    ensures |r| <= |s| && r == s[|s| - |r|..]
    ensures r == [] || r[0] != c
    ensures forall i :: 0 <= i < |s| - |r| ==> s[i] == c
  {
    if s != [] && s[0] == c then LStrip(s[1..], c) else s
  }

  /** `c.join(parts)`. */
  function Join(parts: seq<string>, c: char): string
    requires |parts| >= 1
    decreases |parts|
  {
    if |parts| == 1 then parts[0] else parts[0] + [c] + Join(parts[1..], c)
  }

  /** `s.split(c)`: the pieces of `s` between the occurrences of `c`. There is
      always at least one piece (`"".split("/") == [""]`), no piece contains
      `c`, and joining the pieces with `c` gives `s` back. */
  function Split(s: string, c: char): (parts: seq<string>)
    ensures |parts| >= 1
    ensures forall i :: 0 <= i < |parts| ==> c !in parts[i]
    ensures Join(parts, c) == s
  {
    if s == [] then [[]]
    else
      var rest := Split(s[1..], c);
      if s[0] == c then
        assert ([] + [c] + Join(rest, c)) == [s[0]] + s[1..];
        [[]] + rest
      else
        var parts := [[s[0]] + rest[0]] + rest[1..];
        assert parts[1..] == rest[1..];
        assert |rest| > 1 ==> Join(rest, c) == rest[0] + [c] + Join(rest[1..], c);
        assert s == [s[0]] + s[1..];
        parts
  }

  /** `s.split(c)` has one more piece than `s` has occurrences of `c`. */
  lemma {:induction false} SplitLength(s: string, c: char)
    ensures |Split(s, c)| == Occurrences(s, c) + 1
    decreases |s|
  {
    if s != [] {
      SplitLength(s[1..], c);
    }
  }

  /** The last piece of `s.split(c)` is a suffix of `s`. */
  lemma {:induction false} LastPieceIsSuffix(s: string, c: char)
    ensures var parts := Split(s, c); EndsWith(s, parts[|parts| - 1])
    decreases |s|
  {
    if s != [] {
      var rest := Split(s[1..], c);
      if s[0] != c && |rest| == 1 {
        assert Split(s, c) == [[s[0]] + s[1..]];
        assert [s[0]] + s[1..] == s;
      } else {
        LastPieceIsSuffix(s[1..], c);
        var last := rest[|rest| - 1];
        assert Split(s, c)[|Split(s, c)| - 1] == last;
        assert s[|s| - |last|..] == s[1..][|s[1..]| - |last|..];
      }
    }
  }

  /** A string without `c` splits into itself alone. */
  lemma {:induction false} SplitWithoutSeparator(a: string, c: char)
    requires c !in a
    ensures Split(a, c) == [a]
    decreases |a|
  {
    if a != [] {
      assert c !in a[1..];
      SplitWithoutSeparator(a[1..], c);
      assert [a[0]] + a[1..] == a;
    }
  }

  /** Splitting stops at the first separator. */
  lemma {:induction false} SplitAtFirstSeparator(a: string, b: string, c: char)
    requires c !in a
    ensures Split(a + [c] + b, c) == [a] + Split(b, c)
    decreases |a|
  {
    var s := a + [c] + b;
    if a == [] {
      assert s[1..] == b;
    } else {
      assert c !in a[1..];
      assert s[1..] == a[1..] + [c] + b;
      SplitAtFirstSeparator(a[1..], b, c);
      assert [a[0]] + a[1..] == a;
    }
  }

  /** `split` undoes `join` when no piece contains the separator: together with
      the contract of `Split`, the two are inverse to each other. */
  lemma {:induction false} SplitOfJoin(parts: seq<string>, c: char)
    requires |parts| >= 1
    requires forall i :: 0 <= i < |parts| ==> c !in parts[i]
    ensures Split(Join(parts, c), c) == parts
    decreases |parts|
  {
    if |parts| == 1 {
      SplitWithoutSeparator(parts[0], c);
    } else {
      SplitOfJoin(parts[1..], c);
      SplitAtFirstSeparator(parts[0], Join(parts[1..], c), c);
      assert [parts[0]] + parts[1..] == parts;
    }
  }
}
