/** `strings.Split(s, ".")` and its inverse, the join with ".". */
module Strings {

  predicate NoDot(s: string) {
    forall i :: 0 <= i < |s| ==> s[i] != '.'
  }

  predicate PartsHaveNoDot(parts: seq<string>) {
    forall j :: 0 <= j < |parts| ==> NoDot(parts[j])
  }

  /** Number of '.' characters in s. */
  function DotCount(s: string): nat {
    if |s| == 0 then 0 else (if s[0] == '.' then 1 else 0) + DotCount(s[1..])
  }

  /** Concatenation of the parts with "." between neighbours. */
  function Join(parts: seq<string>): string
    requires |parts| >= 1
  {
    if |parts| == 1 then parts[0] else parts[0] + "." + Join(parts[1..])
  }

  /** `strings.Split(s, ".")`: the maximal dot-free pieces between separators.
      There is always one more piece than there are dots, so "" gives [""]
      and "swarm." gives ["swarm", ""]. */
  function Split(s: string): (parts: seq<string>)
    ensures |parts| == DotCount(s) + 1
    ensures PartsHaveNoDot(parts)
    ensures Join(parts) == s
  {
    if |s| == 0 then [""]
    else if s[0] == '.' then
      var rest := Split(s[1..]);
      assert s == "" + "." + Join(rest);
      [""] + rest
    else
      var rest := Split(s[1..]);
      var parts := [[s[0]] + rest[0]] + rest[1..];
      assert parts[1..] == rest[1..];
      assert NoDot(parts[0]);
      parts
  }

  /** Fewer than two pieces exactly when the string holds no '.'. */
  lemma SplitSingle(s: string)
    ensures |Split(s)| < 2 <==> NoDot(s)
  {
    DotCountZero(s);
  }

  lemma {:induction false} DotCountZero(s: string)
    ensures DotCount(s) == 0 <==> NoDot(s)
  {
    if |s| > 0 {
      DotCountZero(s[1..]);
      if NoDot(s[1..]) && s[0] != '.' {
        assert forall i :: 1 <= i < |s| ==> s[i] == s[1..][i - 1];
      }
    }
  }

  /** Splitting a join of dot-free parts gives the parts back. */
  lemma {:induction false} SplitJoin(parts: seq<string>)
    requires |parts| >= 1
    requires PartsHaveNoDot(parts)
    ensures Split(Join(parts)) == parts
  {
    if |parts| == 1 {
      SplitNoDot(parts[0]);
    } else {
      SplitJoin(parts[1..]);
      SplitPrefix(parts[0], Join(parts[1..]));
    }
  }

  /** A dot-free string is its own single piece. */
  lemma {:induction false} SplitNoDot(s: string)
    requires NoDot(s)
    ensures Split(s) == [s]
  {
    if |s| > 0 {
      SplitNoDot(s[1..]);
    }
  }

  /** Splitting `p + "." + t` for dot-free p puts p in front of the pieces of t. */
  lemma {:induction false} SplitPrefix(p: string, t: string)
    requires NoDot(p)
    ensures Split(p + "." + t) == [p] + Split(t)
  {
    var s := p + "." + t;
    if |p| == 0 {
      assert s[1..] == t;
    } else {
      assert s[1..] == p[1..] + "." + t;
      SplitPrefix(p[1..], t);
      assert [p[0]] + p[1..] == p;
    }
  }
}
