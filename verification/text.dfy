/**
  The few operations of Go's `strings` package that the tool relies on:
  `Index`, `Cut`, `HasPrefix`, `Split` and `ReplaceAll`, on strings of
  characters. Each is defined the way the Go library computes it (leftmost
  match, left to right), and its meaning is pinned down by lemmas that relate
  it to `Join`.
*/
module Text {
  import opened Wrappers

  /** `pat` occurs in `s` starting at index `k`. */
  predicate OccursAt(s: string, pat: string, k: int)
  {
    0 <= k && k + |pat| <= |s| && s[k..k + |pat|] == pat
  }

  /** strings.HasPrefix: `prefix` is where `Index` finds it first, at position 0. */
  predicate HasPrefix(s: string, prefix: string): (r: bool)
    ensures r <==> Index(s, prefix) == Some(0)
  {
    if |prefix| <= |s| && s[..|prefix|] == prefix then
      IndexIsLeftmost(s, prefix, 0);
      true
    else
      false
  }

  predicate HasSuffix(s: string, suffix: string)
  {
    |suffix| <= |s| && s[|s| - |suffix|..] == suffix
  }

  /** Number of times the character `c` appears in `s`. */
  function CountChar(s: string, c: char): nat
  {
    if s == "" then 0 else (if s[0] == c then 1 else 0) + CountChar(s[1..], c)
  }

  lemma OccursShift(s: string, pat: string)
    requires |s| > 0
    ensures forall k :: 1 <= k ==> (OccursAt(s, pat, k) <==> OccursAt(s[1..], pat, k - 1))
  {
    forall k | 1 <= k
      ensures OccursAt(s, pat, k) <==> OccursAt(s[1..], pat, k - 1)
    {
      if k + |pat| <= |s| {
        assert s[1..][k - 1..k - 1 + |pat|] == s[k..k + |pat|];
      }
    }
  }

  /** strings.Index: the leftmost position at which `pat` occurs in `s`. */
  function Index(s: string, pat: string): (r: Option<nat>)
    ensures r.Some? ==> OccursAt(s, pat, r.value)
    ensures r.Some? ==> forall k :: 0 <= k < r.value ==> !OccursAt(s, pat, k)
    ensures r.None? ==> forall k :: !OccursAt(s, pat, k)
    decreases |s|
  {
    if |s| < |pat| then None
    else if s[..|pat|] == pat then Some(0)
    else
      OccursShift(s, pat);
      match Index(s[1..], pat)
      case None => None
      case Some(j) => Some(j + 1)
  }

  /** Any occurrence that has none before it is the one `Index` finds. */
  lemma IndexIsLeftmost(s: string, pat: string, j: nat)
    requires OccursAt(s, pat, j)
    requires forall k :: 0 <= k < j ==> !OccursAt(s, pat, k)
    ensures Index(s, pat) == Some(j)
  {
    assert Index(s, pat).Some?;
  }

  lemma OccursAtChar(s: string, c: char, k: int)
    ensures OccursAt(s, [c], k) <==> 0 <= k < |s| && s[k] == c
  {
    if 0 <= k < |s| {
      assert s[k..k + 1] == [s[k]];
    }
  }

  /** For a one-character pattern, `Index` fails exactly when the character is absent. */
  lemma IndexCharNone(s: string, c: char)
    ensures Index(s, [c]).None? <==> c !in s
  {
    if c in s {
      var k :| 0 <= k < |s| && s[k] == c;
      OccursAtChar(s, c, k);
    } else if Index(s, [c]).Some? {
      OccursAtChar(s, c, Index(s, [c]).value);
    }
  }

  /** An occurrence inside a prefix of `s` is an occurrence in `s`. */
  lemma OccursInPrefix(s: string, n: nat, pat: string, k: int)
    requires n <= |s|
    requires OccursAt(s[..n], pat, k)
    ensures OccursAt(s, pat, k) && k + |pat| <= n
  {
    assert s[..n][k..k + |pat|] == s[k..k + |pat|];
  }

  datatype CutResult = CutResult(before: string, after: string, found: bool)

  /**
    strings.Cut: the text around the first occurrence of `sep`; when `sep`
    does not occur, the whole of `s` and an empty remainder.
  */
  function Cut(s: string, sep: string): (r: CutResult)
    ensures r.found ==> s == r.before + sep + r.after
    ensures r.found ==> forall k :: 0 <= k < |r.before| ==> !OccursAt(s, sep, k)
    ensures !r.found ==> r.before == s && r.after == "" && forall k :: !OccursAt(s, sep, k)
  {
    match Index(s, sep)
    case None => CutResult(s, "", false)
    case Some(i) => CutResult(s[..i], s[i + |sep|..], true)
  }

  /** Cutting at a character splits at its first appearance. */
  lemma {:induction false} CutAtFirst(pre: string, c: char, post: string)
    requires c !in pre
    ensures Cut(pre + [c] + post, [c]) == CutResult(pre, post, true)
  {
    var s := pre + [c] + post;
    OccursAtChar(s, c, |pre|);
    forall k | 0 <= k < |pre|
      ensures !OccursAt(s, [c], k)
    {
      OccursAtChar(s, c, k);
      assert s[k] == pre[k];
    }
    IndexIsLeftmost(s, [c], |pre|);
    assert s[|pre| + 1..] == post;
  }

  /** Cutting at a character that is absent finds nothing. */
  lemma {:induction false} CutMissing(s: string, c: char)
    requires c !in s
    ensures Cut(s, [c]) == CutResult(s, "", false)
  {
    IndexCharNone(s, c);
  }

  /** strings.Join: the parts with `sep` between consecutive ones. */
  function Join(parts: seq<string>, sep: string): string
  {
    if |parts| == 0 then ""
    else if |parts| == 1 then parts[0]
    else parts[0] + sep + Join(parts[1..], sep)
  }

  /** The piece before the first occurrence of `sep` contains no `sep`. */
  lemma PieceHasNoSeparator(s: string, sep: string, i: nat)
    requires sep != ""
    requires Index(s, sep) == Some(i)
    ensures Index(s[..i], sep).None?
  {
    var r := Index(s[..i], sep);
    if r.Some? {
      OccursInPrefix(s, i, sep, r.value);
      assert false;
    }
  }

  /** The piece before the first occurrence of `sep`, followed by `sep`, has its first `sep` at its end. */
  lemma PieceThenSeparator(s: string, sep: string, i: nat)
    requires Index(s, sep) == Some(i)
    ensures Index(s[..i] + sep, sep) == Some(i)
  {
    var p := s[..i + |sep|];
    assert s[..i] + sep == p;
    assert p[i..i + |sep|] == s[i..i + |sep|];
    forall k | 0 <= k < i
      ensures !OccursAt(p, sep, k)
    {
      if OccursAt(p, sep, k) {
        OccursInPrefix(s, i + |sep|, sep, k);
      }
    }
    IndexIsLeftmost(p, sep, i);
  }

  /**
    strings.Split for a non-empty separator: the pieces between the
    non-overlapping occurrences of `sep`, found left to right. Joining them
    with `sep` gives back `s`.
  */
  function Split(s: string, sep: string): (parts: seq<string>)
    requires sep != ""
    ensures |parts| > 0
    ensures Join(parts, sep) == s
    decreases |s|
  {
    match Index(s, sep)
    case None => [s]
    case Some(i) =>
      var rest := Split(s[i + |sep|..], sep);
      assert ([s[..i]] + rest)[1..] == rest;
      [s[..i]] + rest
  }

  /** No piece of a split contains the separator. */
  lemma {:induction false} SplitPiecesFree(s: string, sep: string)
    requires sep != ""
    ensures forall p :: p in Split(s, sep) ==> Index(p, sep).None?
    decreases |s|
  {
    match Index(s, sep)
    case None =>
    case Some(i) =>
      PieceHasNoSeparator(s, sep, i);
      SplitPiecesFree(s[i + |sep|..], sep);
      assert Split(s, sep) == [s[..i]] + Split(s[i + |sep|..], sep);
  }

  /**
    Each separator a split takes is the leftmost one after the previous
    piece: together with `SplitPiecesFree` and the `Join` of `Split`, this
    makes `Split` the one left-to-right reading of `s` as pieces joined by `sep`.
  */
  lemma {:induction false} SplitPiecesLeftmost(s: string, sep: string)
    requires sep != ""
    ensures forall i :: 0 <= i < |Split(s, sep)| - 1 ==>
      Index(Split(s, sep)[i] + sep, sep) == Some(|Split(s, sep)[i]|)
    decreases |s|
  {
    match Index(s, sep)
    case None =>
    case Some(i) =>
      PieceThenSeparator(s, sep, i);
      var rest := Split(s[i + |sep|..], sep);
      SplitPiecesLeftmost(s[i + |sep|..], sep);
      var parts := Split(s, sep);
      assert parts == [s[..i]] + rest;
      forall j | 0 <= j < |parts| - 1
        ensures Index(parts[j] + sep, sep) == Some(|parts[j]|)
      {
        if j > 0 {
          assert parts[j] == rest[j - 1];
          assert 0 <= j - 1 < |rest| - 1;
          assert Index(rest[j - 1] + sep, sep) == Some(|rest[j - 1]|);
        } else {
          assert parts[0] == s[..i];
        }
      }
  }

  lemma CountCharAppend(a: string, b: string, c: char)
    ensures CountChar(a + b, c) == CountChar(a, c) + CountChar(b, c)
  {
    if a == "" {
      assert a + b == b;
    } else {
      assert (a + b)[0] == a[0] && (a + b)[1..] == a[1..] + b;
      CountCharAppend(a[1..], b, c);
    }
  }

  lemma CountCharAbsent(a: string, c: char)
    requires c !in a
    ensures CountChar(a, c) == 0
  {
  }

  /** Splitting at a character gives one piece more than it has separators. */
  lemma {:induction false} SplitCharCount(s: string, c: char)
    ensures |Split(s, [c])| == CountChar(s, c) + 1
    decreases |s|
  {
    match Index(s, [c])
    case None =>
      IndexCharNone(s, c);
      CountCharAbsent(s, c);
    case Some(i) =>
      OccursAtChar(s, c, i);
      PieceHasNoSeparator(s, [c], i);
      assert Split(s, [c]) == [s[..i]] + Split(s[i + 1..], [c]);
      IndexCharNone(s[..i], c);
      assert s == s[..i] + [c] + s[i + 1..];
      CountCharAppend(s[..i] + [c], s[i + 1..], c);
      CountCharAppend(s[..i], [c], c);
      CountCharAbsent(s[..i], c);
      SplitCharCount(s[i + 1..], c);
  }

  /** Joining two or more parts ends with the separator and the last part. */
  lemma {:induction false} JoinLast(parts: seq<string>, sep: string)
    requires |parts| >= 2
    ensures Join(parts, sep) == Join(parts[..|parts| - 1], sep) + sep + parts[|parts| - 1]
    decreases |parts|
  {
    if |parts| > 2 {
      JoinLast(parts[1..], sep);
      assert parts[1..][..|parts| - 2] == parts[..|parts| - 1][1..];
    }
  }

  /**
    With at least two pieces, the last piece of a split at `c` is the text
    after the last `c`: it contains no `c`, and `s` ends with `c` followed by it.
  */
  lemma LastPiece(s: string, c: char)
    requires |Split(s, [c])| >= 2
    ensures var parts := Split(s, [c]); var last := parts[|parts| - 1];
      c !in last && HasSuffix(s, [c] + last)
  {
    var parts := Split(s, [c]);
    var last := parts[|parts| - 1];
    SplitPiecesFree(s, [c]);
    IndexCharNone(last, c);
    JoinLast(parts, [c]);
    var front := Join(parts[..|parts| - 1], [c]);
    assert s == front + [c] + last;
    assert s[|s| - |[c] + last|..] == [c] + last;
  }

  /**
    strings.ReplaceAll: every non-overlapping occurrence of `find`, found left
    to right, replaced by `repl`. An empty `find` matches at the start and after
    every character.
  */
  function ReplaceAll(s: string, find: string, repl: string): (r: string)
    ensures find != "" && Index(s, find).None? ==> r == s
    decreases |s|
  {
    if find == "" then
      if s == "" then repl else repl + [s[0]] + ReplaceAll(s[1..], find, repl)
    else
      match Index(s, find)
      case None => s
      case Some(i) => s[..i] + repl + ReplaceAll(s[i + |find|..], find, repl)
  }

  /**
    Replacing is splitting at `find` and joining with `repl`: the text between
    the occurrences is kept exactly as it was.
  */
  lemma {:induction false} ReplaceAllIsSplitJoin(s: string, find: string, repl: string)
    requires find != ""
    ensures ReplaceAll(s, find, repl) == Join(Split(s, find), repl)
    decreases |s|
  {
    match Index(s, find)
    case None =>
    case Some(i) =>
      var rest := s[i + |find|..];
      ReplaceAllIsSplitJoin(rest, find, repl);
      assert Split(s, find) == [s[..i]] + Split(rest, find);
      assert ([s[..i]] + Split(rest, find))[1..] == Split(rest, find);
  }

  /** Replacing a pattern by itself changes nothing. */
  lemma ReplaceAllSelf(s: string, find: string)
    ensures ReplaceAll(s, find, find) == s
  {
    if find == "" {
      ReplaceAllEmptySelf(s);
    } else {
      ReplaceAllIsSplitJoin(s, find, find);
    }
  }

  lemma {:induction false} ReplaceAllEmptySelf(s: string)
    ensures ReplaceAll(s, "", "") == s
    decreases |s|
  {
    if s != "" {
      ReplaceAllEmptySelf(s[1..]);
    }
  }
}
