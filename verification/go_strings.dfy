/** The parts of Go's `strings` package that the resolver relies on, with the
    Go semantics spelled out: `Split` never returns an empty slice, `Index`
    finds the empty pattern at position 0, and `TrimLeft`/`TrimRight` take a
    cut SET of characters rather than a prefix or suffix. */
module GoStrings {
  import opened Wrappers

  /** strings.HasPrefix */
  predicate HasPrefix(s: string, prefix: string) {
    |prefix| <= |s| && s[..|prefix|] == prefix
  }

  /** strings.HasSuffix */
  predicate HasSuffix(s: string, suffix: string) {
    |suffix| <= |s| && s[|s| - |suffix|..] == suffix
  }

  /** strings.Join */
  function Join(parts: seq<string>, sep: string): string {
    if |parts| == 0 then ""
    else if |parts| == 1 then parts[0]
    else parts[0] + sep + Join(parts[1..], sep)
  }

  /** strings.Split for a one-character separator: the pieces between the
      separators, never an empty sequence (Split("") is [""]). */
  function Split(s: string, sep: char): (parts: seq<string>)
    ensures |parts| > 0
    ensures forall i :: 0 <= i < |parts| ==> sep !in parts[i]
    ensures Join(parts, [sep]) == s
    decreases |s|
  {
    if |s| == 0 then [""]
    else
      var rest := Split(s[1..], sep);
      if s[0] == sep then
        assert s == [sep] + s[1..];
        [""] + rest
      else
        var parts := [[s[0]] + rest[0]] + rest[1..];
        assert parts[1..] == rest[1..];
        assert s == [s[0]] + s[1..];
        parts
  }

  /** Joining labels that contain no separator and splitting again gives the
      labels back. */
  lemma {:induction false} SplitJoin(parts: seq<string>, sep: char)
    requires |parts| > 0
    requires forall i :: 0 <= i < |parts| ==> sep !in parts[i]
    ensures Split(Join(parts, [sep]), sep) == parts
    decreases |parts|
  {
    if |parts| == 1 {
      SplitWithoutSep(parts[0], sep);
    } else {
      SplitJoin(parts[1..], sep);
      SplitAfterSep(parts[0], Join(parts[1..], [sep]), sep);
      assert parts == [parts[0]] + parts[1..];
    }
  }

  lemma {:induction false} SplitWithoutSep(a: string, sep: char)
    requires sep !in a
    ensures Split(a, sep) == [a]
    decreases |a|
  {
    if |a| > 0 {
      SplitWithoutSep(a[1..], sep);
      assert a == [a[0]] + a[1..];
    }
  }

  lemma {:induction false} SplitAfterSep(a: string, b: string, sep: char)
    requires sep !in a
    ensures Split(a + [sep] + b, sep) == [a] + Split(b, sep)
    decreases |a|
  {
    var s := a + [sep] + b;
    if |a| == 0 {
      assert s[1..] == b;
    } else {
      assert s[1..] == a[1..] + [sep] + b;
      SplitAfterSep(a[1..], b, sep);
      assert a == [a[0]] + a[1..];
    }
  }

  /** Joining two non-empty runs of labels puts one separator between them. */
  lemma {:induction false} JoinAppend(a: seq<string>, b: seq<string>, sep: string)
    requires |a| > 0 && |b| > 0
    ensures Join(a + b, sep) == Join(a, sep) + sep + Join(b, sep)
    decreases |a|
  {
    if |a| == 1 {
      assert (a + b)[1..] == b;
    } else {
      assert (a + b)[1..] == a[1..] + b;
      JoinAppend(a[1..], b, sep);
    }
  }

  /** The joined string starts with the first label. */
  lemma JoinStartsWithFirst(parts: seq<string>, sep: string)
    requires |parts| > 0
    ensures HasPrefix(Join(parts, sep), parts[0])
    ensures Join(parts, sep) == parts[0] + Join(parts, sep)[|parts[0]|..]
  {
    if |parts| > 1 {
      JoinAppend([parts[0]], parts[1..], sep);
      assert [parts[0]] + parts[1..] == parts;
    }
  }

  /** The joined string ends with the last label. */
  lemma JoinEndsWithLast(parts: seq<string>, sep: string)
    requires |parts| > 0
    ensures HasSuffix(Join(parts, sep), parts[|parts| - 1])
  {
    if |parts| > 1 {
      var init := parts[..|parts| - 1];
      var last := parts[|parts| - 1];
      JoinAppend(init, [last], sep);
      assert init + [last] == parts;
    }
  }

  /** `pattern` occurs in `s` at position `i`. */
  predicate OccursAt(s: string, pattern: string, i: nat) {
    i + |pattern| <= |s| && s[i..i + |pattern|] == pattern
  }

  /** strings.Index from position `i` on; None stands for Go's -1. */
  function IndexFrom(s: string, pattern: string, i: nat): (r: Option<nat>)
    requires i <= |s|
    ensures r.Some? ==> i <= r.value && OccursAt(s, pattern, r.value)
    ensures r.Some? ==> forall j: nat :: i <= j < r.value ==> !OccursAt(s, pattern, j)
    ensures r.None? ==> forall j: nat :: i <= j <= |s| ==> !OccursAt(s, pattern, j)
    decreases |s| - i
  {
    if i + |pattern| > |s| then None
    else if s[i..i + |pattern|] == pattern then Some(i)
    else IndexFrom(s, pattern, i + 1)
  }

  /** strings.Index: the first position of `pattern` in `s`. */
  function Index(s: string, pattern: string): (r: Option<nat>)
    ensures r.Some? ==> OccursAt(s, pattern, r.value)
    ensures r.Some? ==> forall j: nat :: j < r.value ==> !OccursAt(s, pattern, j)
    ensures r.None? ==> forall j: nat :: j <= |s| ==> !OccursAt(s, pattern, j)
    ensures HasPrefix(s, pattern) ==> r == Some(0)
  {
    assert HasPrefix(s, pattern) ==> OccursAt(s, pattern, 0);
    IndexFrom(s, pattern, 0)
  }

  /** strings.Replace(s, pattern, replacement, 1): the first occurrence only.
      An empty pattern occurs at position 0, so it inserts in front. */
  function ReplaceFirst(s: string, pattern: string, replacement: string): (r: string)
    ensures HasPrefix(s, pattern) ==> r == replacement + s[|pattern|..]
    ensures Index(s, pattern).None? ==> r == s
    ensures pattern == "" ==> r == replacement + s
  {
    match Index(s, pattern)
    case None => s
    case Some(i) => s[..i] + replacement + s[i + |pattern|..]
  }

  /** strings.TrimLeft: drops the longest prefix made of characters of `cutset`. */
  function TrimLeft(s: string, cutset: string): (r: string)
    ensures |r| <= |s| && r == s[|s| - |r|..]
    ensures forall i :: 0 <= i < |s| - |r| ==> s[i] in cutset
    ensures |r| > 0 ==> r[0] !in cutset
    decreases |s|
  {
    if |s| > 0 && s[0] in cutset then TrimLeft(s[1..], cutset) else s
  }

  /** strings.TrimRight: drops the longest suffix made of characters of `cutset`. */
  function TrimRight(s: string, cutset: string): (r: string)
    ensures |r| <= |s| && r == s[..|r|]
    ensures forall i :: |r| <= i < |s| ==> s[i] in cutset
    ensures |r| > 0 ==> r[|r| - 1] !in cutset
    decreases |s|
  {
    if |s| > 0 && s[|s| - 1] in cutset then TrimRight(s[..|s| - 1], cutset) else s
  }
}
