/** string_utility::SplitString and its inverse. */
module StringUtility {

  /** Position of the first c in s, or |s|. */
  function Find(s: string, c: char): (k: nat)
    ensures k <= |s| && forall i :: 0 <= i < k ==> s[i] != c
    ensures k < |s| ==> s[k] == c
  {
    if s == "" || s[0] == c then 0 else 1 + Find(s[1..], c)
  }

  /** The parts between separators; nothing is listed after a last separator. */
  function Parts(s: string, c: char): seq<string> {
    if s == "" then []
    else if Find(s, c) == |s| then [s]
    else [s[..Find(s, c)]] + Parts(s[Find(s, c) + 1..], c)
  }

  /** find_first_of for a single character; npos is -1. */
  function FirstOf(s: string, c: char): int {
    if Find(s, c) == |s| then -1 else Find(s, c)
  }

  method SplitString(src: string, split: char) returns (result: seq<string>)
    ensures result == Parts(src, split)
  {
    result := [];
    var path := src;
    var pos := FindFirstOf(path, split);
    while pos != -1 && |path| > 0
      invariant pos == FirstOf(path, split)
      invariant Accumulated(result, path, src, split)
      decreases |path|
    {
      TakeOff(result, path, src, split);
      var sub := path[0..pos];
      path := path[pos + 1..];
      result := result + [sub];
      pos := FindFirstOf(path, split);
    }
    TakeLast(result, path, src, split);
    if pos == -1 && |path| > 0 {
      result := result + [path];
    }
  }

  ghost predicate Accumulated(result: seq<string>, path: string, src: string, c: char) {
    result + Parts(path, c) == Parts(src, c)
  }

  lemma TakeOff(result: seq<string>, path: string, src: string, c: char)
    requires Find(path, c) < |path| && Accumulated(result, path, src, c)
    ensures Accumulated(result + [path[0..Find(path, c)]], path[Find(path, c) + 1..], src, c)
  {}

  lemma TakeLast(result: seq<string>, path: string, src: string, c: char)
    requires Find(path, c) == |path| && Accumulated(result, path, src, c)
    ensures Parts(src, c) == result + if path == "" then [] else [path]
  {}

  method FindFirstOf(s: string, c: char) returns (pos: int)
    ensures pos == FirstOf(s, c)
  {
    pos := 0;
    while pos < |s| && s[pos] != c
      invariant 0 <= pos <= |s| && forall i :: 0 <= i < pos ==> s[i] != c
    {
      pos := pos + 1;
    }
    if pos == |s| {
      pos := -1;
    }
  }

  // ----- joining ---------------------------------------------------------------------------

  function Join(parts: seq<string>, c: char): string {
    if parts == [] then ""
    else if |parts| == 1 then parts[0]
    else parts[0] + [c] + Join(parts[1..], c)
  }

  ghost predicate Plain(parts: seq<string>, c: char) {
    forall p :: p in parts ==> c !in p
  }

  /** The first separator of p + c + rest stands behind p. */
  lemma PartsOfConcat(p: string, c: char, rest: string)
    requires c !in p
    ensures Parts(p + [c] + rest, c) == [p] + Parts(rest, c)
    ensures Parts(p, c) == if p == "" then [] else [p]
  {
    var s := p + [c] + rest;
    assert s[|p|] == c && forall i :: 0 <= i < |p| ==> s[i] == p[i];
    assert Find(s, c) == |p| && Find(p, c) == |p|;
    assert s[..|p|] == p && s[|p| + 1..] == rest;
  }

  /** The list without an empty last part. */
  function NoEmptyLast(parts: seq<string>): seq<string>
    requires parts != []
  {
    if parts[|parts| - 1] == "" then parts[..|parts| - 1] else parts
  }

  lemma NoEmptyLastCons(parts: seq<string>)
    requires |parts| > 1
    ensures NoEmptyLast(parts) == [parts[0]] + NoEmptyLast(parts[1..])
  {
    assert parts == [parts[0]] + parts[1..];
    assert parts[..|parts| - 1] == [parts[0]] + parts[1..][..|parts| - 2];
  }

  /** Splitting a joined list gives it back, short of an empty last part. */
  lemma {:induction false} PartsOfJoin(parts: seq<string>, c: char)
    requires parts != [] && Plain(parts, c)
    ensures Parts(Join(parts, c), c) == NoEmptyLast(parts)
    decreases |parts|
  {
    PartsOfConcat(parts[0], c, Join(parts[1..], c));
    if |parts| == 1 {
      assert parts == [parts[0]] && parts[..0] == [];
    } else {
      PartsOfJoin(parts[1..], c);
      NoEmptyLastCons(parts);
    }
  }

  function Trimmed(s: string, c: char): string {
    if s != "" && s[|s| - 1] == c then s[..|s| - 1] else s
  }

  lemma TrimmedConcat(p: string, c: char, rest: string)
    ensures Trimmed(p + [c] + rest, c) == if rest == "" then p else p + [c] + Trimmed(rest, c)
  {
    var s := p + [c] + rest;
    if rest == "" {
      assert s[..|s| - 1] == p;
    } else {
      assert s[|s| - 1] == rest[|rest| - 1];
      assert s[..|s| - 1] == p + [c] + rest[..|rest| - 1];
    }
  }

  /** Parts never contain the separator, and joining them gives the string back, short of
      one separator at its end. */
  lemma {:induction false} JoinOfParts(s: string, c: char)
    ensures Plain(Parts(s, c), c)
    ensures Join(Parts(s, c), c) == Trimmed(s, c)
    decreases |s|
  {
    if s != "" && Find(s, c) < |s| {
      var p, rest := s[..Find(s, c)], s[Find(s, c) + 1..];
      assert s == p + [c] + rest;
      TrimmedConcat(p, c, rest);
      JoinOfParts(rest, c);
      assert Parts(s, c)[1..] == Parts(rest, c);
    }
  }

  /** So splitting undoes joining exactly when the last part is not empty, and joining
      undoes splitting exactly when the string does not end in a separator. */
  lemma SplitAndJoin(parts: seq<string>, s: string, c: char)
    requires parts != [] && Plain(parts, c)
    ensures Parts(Join(parts, c), c) == parts <==> parts[|parts| - 1] != ""
    ensures Join(Parts(s, c), c) == s <==> !(s != "" && s[|s| - 1] == c)
  {
    PartsOfJoin(parts, c);
    JoinOfParts(s, c);
  }

  lemma EmptyLastPartIsLost()
    ensures Parts(Join(["a", ""], '.'), '.') == ["a"]
  {
    PartsOfJoin(["a", ""], '.');
    assert ["a", ""][..1] == ["a"];
  }
}
