/** The JavaScript string primitives the request parser is built on:
    `indexOf`, `includes`, `startsWith`, `endsWith`, `split` and `join`,
    over strings as sequences of characters. */
module Text {

  /** `sep` occurs in `s` starting at index `i`. */
  predicate OccursAt(s: string, sep: string, i: int) {
    0 <= i && i + |sep| <= |s| && s[i..i + |sep|] == sep
  }

  /** JavaScript's `s.indexOf(sep)`: the first index at which `sep` occurs,
      or -1 when it occurs nowhere (an empty `sep` occurs at 0); the lemma
      `IndexOfFirst` states this. */
  function IndexOf(s: string, sep: string): (r: int)
    ensures r == -1 || 0 <= r <= |s| - |sep|
  {
    IndexFrom(s, sep, 0)
  }

  /** The search of `IndexOf`, resumed at index `k`. */
  function IndexFrom(s: string, sep: string, k: nat): (r: int)
    requires k <= |s|
    ensures r == -1 || k <= r <= |s| - |sep|
    decreases |s| - k
  {
    if k + |sep| > |s| then -1
    else if s[k..k + |sep|] == sep then k
    else IndexFrom(s, sep, k + 1)
  }

  lemma {:induction false} IndexFromFirst(s: string, sep: string, k: nat)
    requires k <= |s|
    requires forall j :: 0 <= j < k ==> !OccursAt(s, sep, j)
    ensures var r := IndexFrom(s, sep, k);
      (r == -1 <==> forall j :: 0 <= j ==> !OccursAt(s, sep, j)) &&
      (r >= 0 ==> OccursAt(s, sep, r) && forall j :: 0 <= j < r ==> !OccursAt(s, sep, j))
    decreases |s| - k
  {
    if k + |sep| > |s| {
    } else if s[k..k + |sep|] == sep {
      assert OccursAt(s, sep, k);
    } else {
      IndexFromFirst(s, sep, k + 1);
    }
  }

  /** `indexOf` finds the first occurrence, and -1 exactly when there is
      none. */
  lemma IndexOfFirst(s: string, sep: string)
    ensures var r := IndexOf(s, sep);
      (r == -1 <==> forall j :: 0 <= j ==> !OccursAt(s, sep, j)) &&
      (r >= 0 ==> OccursAt(s, sep, r) && forall j :: 0 <= j < r ==> !OccursAt(s, sep, j))
  {
    IndexFromFirst(s, sep, 0);
  }

  /** JavaScript's `s.includes(sep)`. */
  predicate Includes(s: string, sep: string) {
    IndexOf(s, sep) >= 0
  }

  /** JavaScript's `s.startsWith(prefix)`. */
  predicate StartsWith(s: string, prefix: string) {
    |prefix| <= |s| && s[..|prefix|] == prefix
  }

  /** JavaScript's `s.endsWith(suffix)`. */
  predicate EndsWith(s: string, suffix: string) {
    |suffix| <= |s| && s[|s| - |suffix|..] == suffix
  }

  /** JavaScript's `parts.join(sep)`. */
  function Join(parts: seq<string>, sep: string): string {
    if |parts| == 0 then ""
    else if |parts| == 1 then parts[0]
    else parts[0] + sep + Join(parts[1..], sep)
  }

  /** JavaScript's `s.split(sep)` for a non-empty separator: the pieces
      between the successive left-most occurrences of `sep`. Joining the
      pieces with `sep` gives `s` back, and no piece holds `sep`. */
  function Split(s: string, sep: string): (parts: seq<string>)
    requires |sep| > 0
    ensures |parts| >= 1
    ensures |parts| >= 2 <==> Includes(s, sep)
    ensures Join(parts, sep) == s
    ensures forall k :: 0 <= k < |parts| ==> !Includes(parts[k], sep)
    ensures Includes(s, sep) ==> parts[0] == s[..IndexOf(s, sep)]
    decreases |s|
  {
    var i := IndexOf(s, sep);
    if i < 0 then [s]
    else
      IndexOfFirst(s, sep);
      var rest := Split(s[i + |sep|..], sep);
      NoOccurrenceBefore(s, sep, i);
      assert s == s[..i] + sep + s[i + |sep|..] by {
        assert s[i..i + |sep|] == sep;
      }
      [s[..i]] + rest
  }

  /** A prefix of `s` that stops before the first occurrence of `sep`
      holds no occurrence of it. */
  lemma NoOccurrenceBefore(s: string, sep: string, i: nat)
    requires |sep| > 0 && i <= |s|
    requires forall j :: 0 <= j < i ==> !OccursAt(s, sep, j)
    ensures !Includes(s[..i], sep)
  {
    IndexOfFirst(s[..i], sep);
    forall j | 0 <= j && OccursAt(s[..i], sep, j)
      ensures false
    {
      assert s[..i][j..j + |sep|] == s[j..j + |sep|];
      assert OccursAt(s, sep, j);
    }
  }

  /** A one-character string occurs exactly where that character stands. */
  lemma OccursAtChar(s: string, c: char, i: int)
    ensures OccursAt(s, [c], i) <==> 0 <= i < |s| && s[i] == c
  {
    if 0 <= i < |s| {
      assert s[i..i + 1] == [s[i]];
    }
  }

  /** `includes` of a one-character string is membership of that character. */
  lemma IncludesChar(s: string, c: char)
    ensures Includes(s, [c]) <==> c in s
  {
    if c in s {
      var i :| 0 <= i < |s| && s[i] == c;
      OccursAtChar(s, c, i);
    }
    IndexOfFirst(s, [c]);
    if Includes(s, [c]) {
      OccursAtChar(s, c, IndexOf(s, [c]));
    }
  }

  /** Splitting on a character that does not occur gives the whole string. */
  lemma SplitAbsent(s: string, c: char)
    requires c !in s
    ensures Split(s, [c]) == [s]
  {
    IncludesChar(s, c);
  }

  /** Splitting at a first occurrence of a character: the piece before it,
      then the pieces of the rest. */
  lemma {:induction false} SplitFirst(a: string, c: char, b: string)
    requires c !in a
    ensures Split(a + [c] + b, [c]) == [a] + Split(b, [c])
  {
    var s := a + [c] + b;
    OccursAtChar(s, c, |a|);
    forall j | 0 <= j < |a|
      ensures !OccursAt(s, [c], j)
    {
      OccursAtChar(s, c, j);
    }
    IndexOfFirst(s, [c]);
    assert IndexOf(s, [c]) == |a|;
    assert s[..|a|] == a;
    assert s[|a| + 1..] == b;
  }

  /** The number of times the character `c` occurs in `s`. */
  function CountChar(s: string, c: char): nat {
    if |s| == 0 then 0
    else (if s[0] == c then 1 else 0) + CountChar(s[1..], c)
  }

  lemma {:induction false} CountCharAppend(a: string, b: string, c: char)
    ensures CountChar(a + b, c) == CountChar(a, c) + CountChar(b, c)
  {
    if |a| == 0 {
      assert a + b == b;
    } else {
      assert (a + b)[1..] == a[1..] + b;
      CountCharAppend(a[1..], b, c);
    }
  }

  lemma {:induction false} CountCharAbsent(s: string, c: char)
    requires c !in s
    ensures CountChar(s, c) == 0
  {
    if |s| > 0 {
      assert c !in s[1..];
      CountCharAbsent(s[1..], c);
    }
  }

  /** Splitting on a character gives one piece more than there are
      occurrences of that character. */
  lemma {:induction false} SplitCount(s: string, c: char)
    ensures |Split(s, [c])| == CountChar(s, c) + 1
    decreases |s|
  {
    var i := IndexOf(s, [c]);
    IndexOfFirst(s, [c]);
    IncludesChar(s, c);
    if i < 0 {
      CountCharAbsent(s, c);
    } else {
      OccursAtChar(s, c, i);
      var a, b := s[..i], s[i + 1..];
      assert s == a + [c] + b;
      IncludesChar(a, c);
      NoOccurrenceBefore(s, [c], i);
      CountCharAbsent(a, c);
      CountCharAppend(a + [c], b, c);
      CountCharAppend(a, [c], c);
      SplitCount(b, c);
    }
  }

  /** Every character of every piece of a join occurs in the joined string. */
  lemma {:induction false} JoinKeepsChars(parts: seq<string>, sep: string, k: nat, x: char)
    requires k < |parts| && x in parts[k]
    ensures x in Join(parts, sep)
  {
    if |parts| > 1 {
      if k > 0 {
        JoinKeepsChars(parts[1..], sep, k - 1, x);
      }
    }
  }

  /** A character absent from `s` is absent from every piece of its split. */
  lemma SplitPiecesLack(s: string, sep: string, k: nat, x: char)
    requires |sep| > 0 && x !in s
    requires k < |Split(s, sep)|
    ensures x !in Split(s, sep)[k]
  {
    if x in Split(s, sep)[k] {
      JoinKeepsChars(Split(s, sep), sep, k, x);
    }
  }

  /** JavaScript's `s.split("")`: one piece per character. */
  function Chars(s: string): (parts: seq<string>)
    ensures |parts| == |s|
    ensures forall i :: 0 <= i < |s| ==> parts[i] == [s[i]]
    ensures Join(parts, "") == s
    decreases |s|
  {
    if |s| == 0 then []
    else
      var rest := Chars(s[1..]);
      assert |s| == 1 ==> s == [s[0]];
      assert |s| > 1 ==> s == [s[0]] + s[1..];
      [[s[0]]] + rest
  }

  /** Joining on a one-character separator absent from every piece is undone
      by splitting on it. */
  lemma {:induction false} SplitJoin(parts: seq<string>, c: char)
    requires |parts| >= 1
    requires forall k :: 0 <= k < |parts| ==> c !in parts[k]
    ensures Split(Join(parts, [c]), [c]) == parts
  {
    if |parts| == 1 {
      SplitAbsent(parts[0], c);
    } else {
      SplitJoin(parts[1..], c);
      SplitFirst(parts[0], c, Join(parts[1..], [c]));
    }
  }
}
