/** The few string operations of Go's `strings` package that the installers use:
    `Split`, `TrimSpace`, `HasSuffix`, `Contains`, and the "last `/`-segment"
    idiom `parts[len(parts)-1]`. Strings are sequences of Unicode scalar values. */
module Text {

  /** Go's `unicode.IsSpace`: the ASCII white space characters, NEL, NBSP and the
      Unicode space separators. */
  predicate IsSpace(c: char) {
    c == ' ' || c == '\t' || c == '\n' || c == '\r' || c == '\U{0B}' || c == '\U{0C}'
    || c == '\U{85}' || c == '\U{A0}' || c == '\U{1680}'
    || ('\U{2000}' <= c <= '\U{200A}')
    || c == '\U{2028}' || c == '\U{2029}' || c == '\U{202F}' || c == '\U{205F}' || c == '\U{3000}'
  }

  /** `strings.HasSuffix`. */
  predicate HasSuffix(s: string, suffix: string) {
    |suffix| <= |s| && s[|s| - |suffix|..] == suffix
  }

  /** `HasSuffix` holds exactly when `s` is something followed by `suffix`. */
  lemma HasSuffixIff(s: string, suffix: string)
    ensures HasSuffix(s, suffix) <==> exists p :: s == p + suffix
  {
    if HasSuffix(s, suffix) {
      assert s == s[..|s| - |suffix|] + suffix;
    }
    if exists p :: s == p + suffix {
      var p :| s == p + suffix;
      assert s[|p|..] == suffix;
    }
  }

  /** `sub` occurs in `s` starting at index `i`. */
  predicate OccursAt(s: string, sub: string, i: nat) {
    i + |sub| <= |s| && s[i..i + |sub|] == sub
  }

  /** `strings.Contains`, by scanning from the left. */
  function Contains(s: string, sub: string): bool
    decreases |s|
  {
    |sub| <= |s| && (s[..|sub|] == sub || (s != [] && Contains(s[1..], sub)))
  }

  /** `Contains` holds exactly when `sub` occurs somewhere in `s`. */
  lemma {:induction false} ContainsIff(s: string, sub: string)
    ensures Contains(s, sub) <==> exists i: nat :: OccursAt(s, sub, i)
    decreases |s|
  {
    if Contains(s, sub) {
      if s[..|sub|] == sub {
        assert OccursAt(s, sub, 0);
      } else {
        ContainsIff(s[1..], sub);
        var i: nat :| OccursAt(s[1..], sub, i);
        assert s[1..][i..i + |sub|] == s[i + 1..i + 1 + |sub|];
        assert OccursAt(s, sub, i + 1);
      }
    }
    if exists i: nat :: OccursAt(s, sub, i) {
      var i: nat :| OccursAt(s, sub, i);
      if i == 0 {
        assert s[..|sub|] == sub;
      } else {
        assert s[1..][i - 1..i - 1 + |sub|] == s[i..i + |sub|];
        assert OccursAt(s[1..], sub, i - 1);
        ContainsIff(s[1..], sub);
      }
    }
  }

  /** `s[i..j]` is a slice of `s` with nothing but white space around it. */
  predicate OnlySpaceOutside(s: string, i: int, j: int) {
    && 0 <= i <= j <= |s|
    && (forall k :: 0 <= k < i ==> IsSpace(s[k]))
    && (forall k :: j <= k < |s| ==> IsSpace(s[k]))
  }

  /** Strips leading white space. */
  function TrimLeft(s: string): (r: string)
    ensures |r| <= |s| && r == s[|s| - |r|..]
    ensures forall i :: 0 <= i < |s| - |r| ==> IsSpace(s[i])
    ensures r == [] || !IsSpace(r[0])
  {
    if s != [] && IsSpace(s[0]) then TrimLeft(s[1..]) else s
  }

  /** Strips trailing white space. */
  function TrimRight(s: string): (r: string)
    ensures |r| <= |s| && r == s[..|r|]
    ensures forall i :: |r| <= i < |s| ==> IsSpace(s[i])
    ensures r == [] || !IsSpace(r[|r| - 1])
  {
    if s != [] && IsSpace(s[|s| - 1]) then TrimRight(s[..|s| - 1]) else s
  }

  /** `strings.TrimSpace`: the result neither starts nor ends with white space,
      is empty exactly when `s` is all white space, and uses only characters of
      `s`; `TrimSpaceSlice` adds that it is `s` with its leading and trailing
      white space removed and nothing else. */
  function TrimSpace(s: string): (r: string)
    ensures r == [] || (!IsSpace(r[0]) && !IsSpace(r[|r| - 1]))
    ensures r == [] <==> forall i :: 0 <= i < |s| ==> IsSpace(s[i])
    ensures forall c :: c in r ==> c in s
  {
    TrimBothEnds(s);
    TrimRight(TrimLeft(s))
  }

  lemma TrimBothEnds(s: string)
    ensures var r := TrimRight(TrimLeft(s));
      && (r == [] || (!IsSpace(r[0]) && !IsSpace(r[|r| - 1])))
      && (r == [] <==> forall i :: 0 <= i < |s| ==> IsSpace(s[i]))
      && (forall c :: c in r ==> c in s)
  {
    var l := TrimLeft(s);
    var r := TrimRight(l);
    assert forall c :: c in r ==> c in l;
    assert forall c :: c in l ==> c in s;
    if r == [] {
      assert l == [];
    } else {
      assert r[0] == l[0];
    }
  }

  /** Trimming removes white space at both ends and nothing else: the result is
      a slice of `s` with only white space around it. */
  lemma TrimSpaceSlice(s: string)
    ensures exists i, j :: OnlySpaceOutside(s, i, j) && TrimSpace(s) == s[i..j]
  {
    var l := TrimLeft(s);
    var r := TrimRight(l);
    SpaceAround(s, l, r);
  }

  /** `l` is `s` without some leading white space and `r` is `l` without some
      trailing white space: `r` is a slice of `s` with only white space around it. */
  lemma SpaceAround(s: string, l: string, r: string)
    requires |l| <= |s| && l == s[|s| - |l|..]
    requires forall k :: 0 <= k < |s| - |l| ==> IsSpace(s[k])
    requires |r| <= |l| && r == l[..|r|]
    requires forall k :: |r| <= k < |l| ==> IsSpace(l[k])
    ensures exists i, j :: OnlySpaceOutside(s, i, j) && r == s[i..j]
  {
    var i := |s| - |l|;
    assert s[i..][..|r|] == s[i..i + |r|];
    forall k | i + |r| <= k < |s|
      ensures IsSpace(s[k])
    {
      assert s[k] == l[k - i];
    }
    assert OnlySpaceOutside(s, i, i + |r|);
  }

  /** Trimming twice trims nothing more. */
  lemma TrimSpaceIdempotent(s: string)
    ensures TrimSpace(TrimSpace(s)) == TrimSpace(s)
  {
    var r := TrimSpace(s);
    assert TrimLeft(r) == r;
    assert TrimRight(r) == r;
  }

  /** Index of the first occurrence of `c` in `s`. */
  function IndexOf(s: string, c: char): (i: nat)
    requires c in s
    ensures i < |s| && s[i] == c && c !in s[..i]
  {
    if s[0] == c then 0 else 1 + IndexOf(s[1..], c)
  }

  /** Glues pieces together with `sep` between neighbours (`strings.Join`). */
  function Join(parts: seq<string>, sep: char): string
  {
    if |parts| == 0 then ""
    else if |parts| == 1 then parts[0]
    else parts[0] + [sep] + Join(parts[1..], sep)
  }

  /** `strings.Split` with a one-character separator: never empty (the empty
      string splits into one empty piece) and no piece holds the separator. */
  function Split(s: string, sep: char): (parts: seq<string>)
    ensures |parts| > 0
    ensures forall i :: 0 <= i < |parts| ==> sep !in parts[i]
    decreases |s|
  {
    if sep !in s then [s]
    else
      var i := IndexOf(s, sep);
      [s[..i]] + Split(s[i + 1..], sep)
  }

  /** Joining the pieces of a split gives back the string. */
  lemma {:induction false} JoinSplit(s: string, sep: char)
    ensures Join(Split(s, sep), sep) == s
    decreases |s|
  {
    if sep in s {
      var i := IndexOf(s, sep);
      var rest := Split(s[i + 1..], sep);
      JoinSplit(s[i + 1..], sep);
      assert Split(s, sep) == [s[..i]] + rest;
      assert s == s[..i] + [sep] + s[i + 1..];
    }
  }

  /** A separator-free head, the separator, then anything: the head is the first piece. */
  lemma SplitCons(head: string, sep: char, tail: string)
    requires sep !in head
    ensures Split(head + [sep] + tail, sep) == [head] + Split(tail, sep)
  {
    var s := head + [sep] + tail;
    assert s[|head|] == sep;
    var i := IndexOf(s, sep);
    assert forall j :: 0 <= j < |head| ==> s[j] == head[j];
    assert i == |head|;
    assert s[..i] == head;
    assert s[i + 1..] == tail;
  }

  /** Splitting is the inverse of joining pieces free of the separator. */
  lemma {:induction false} SplitJoin(parts: seq<string>, sep: char)
    requires |parts| > 0
    requires forall i :: 0 <= i < |parts| ==> sep !in parts[i]
    ensures Split(Join(parts, sep), sep) == parts
  {
    if |parts| > 1 {
      SplitJoin(parts[1..], sep);
      SplitCons(parts[0], sep, Join(parts[1..], sep));
      assert [parts[0]] + parts[1..] == parts;
    }
  }

  /** Where the last `sep`-free stretch of `s` begins: just after the last `sep`,
      or 0 when there is none. */
  function LastStart(s: string, sep: char): (k: nat)
    ensures k <= |s|
    ensures k > 0 ==> s[k - 1] == sep
    ensures forall j :: k <= j < |s| ==> s[j] != sep
    decreases |s|
  {
    if s == [] then 0
    else if s[|s| - 1] == sep then |s|
    else LastStart(s[..|s| - 1], sep)
  }

  /** Any position just after a `sep` with no `sep` beyond it is `LastStart`. */
  lemma LastStartUnique(s: string, sep: char, k: nat)
    requires 0 < k <= |s| && s[k - 1] == sep
    requires forall j :: k <= j < |s| ==> s[j] != sep
    ensures k == LastStart(s, sep)
  {
  }

  /** The part of `s` after its last `sep` (all of `s` when there is none). */
  function LastSegment(s: string, sep: char): string
  {
    s[LastStart(s, sep)..]
  }

  /** The last segment is the longest separator-free suffix of `s`: it ends `s`,
      holds no separator, and is either all of `s` or preceded by the separator. */
  lemma LastSegmentIsSuffix(s: string, sep: char)
    ensures var r := LastSegment(s, sep);
      && |r| <= |s| && s[|s| - |r|..] == r
      && sep !in r
      && (|r| < |s| ==> s[|s| - |r| - 1] == sep)
      && (sep !in s ==> r == s)
  {
    var k := LastStart(s, sep);
    var r := LastSegment(s, sep);
    assert |s| - |r| == k;
  }

  /** Dropping everything up to the first `sep` keeps the last segment. */
  lemma LastSegmentAfterFirst(s: string, sep: char)
    requires sep in s
    ensures LastSegment(s, sep) == LastSegment(s[IndexOf(s, sep) + 1..], sep)
  {
    var i := IndexOf(s, sep);
    var rest := s[i + 1..];
    var k' := LastStart(rest, sep);
    var k := i + 1 + k';
    assert s[k - 1] == sep by {
      if k' > 0 {
        assert s[k - 1] == rest[k' - 1];
      }
    }
    forall j | k <= j < |s| ensures s[j] != sep {
      assert s[j] == rest[j - i - 1];
    }
    LastStartUnique(s, sep, k);
    assert s[k..] == rest[k'..];
  }

  /** `LastSegment` is Go's `parts[len(parts)-1]` over `parts := strings.Split(s, sep)`. */
  lemma {:induction false} LastSegmentOfSplit(s: string, sep: char)
    ensures var parts := Split(s, sep); LastSegment(s, sep) == parts[|parts| - 1]
    decreases |s|
  {
    if sep in s {
      var rest := s[IndexOf(s, sep) + 1..];
      LastSegmentOfSplit(rest, sep);
      LastSegmentAfterFirst(s, sep);
      var parts := Split(s, sep);
      var tail := Split(rest, sep);
      assert parts == [s[..IndexOf(s, sep)]] + tail;
      assert parts[|parts| - 1] == tail[|tail| - 1];
    }
  }
}
