/** The string tests the analyzer applies to node types and capture tags:
    Python's `str.startswith`, the substring operator `in`, and
    `tag.split(".")[1]`. */
module Text {
  import opened Wrappers

  /** `s.startswith(p)` */
  predicate StartsWith(s: string, p: string) {
    |p| <= |s| && s[..|p|] == p
  }

  /** `p in s` for strings: `p` occurs in `s` at some offset. */
  predicate Contains(s: string, p: string) {
    exists i :: 0 <= i <= |s| && StartsWith(s[i..], p)
  }

  /** An occurrence at offset `i` makes `p` a substring of `s`. */
  lemma ContainsAt(s: string, p: string, i: nat)
    requires i <= |s| && StartsWith(s[i..], p)
    ensures Contains(s, p)
  {
  }

  /** If at every offset where `p` could start one of its first two
      characters differs, `p` is not a substring of `s`. */
  lemma NotContainedByPrefix(s: string, p: string)
    requires |p| >= 2
    requires forall i :: 0 <= i <= |s| - |p| ==> s[i] != p[0] || s[i + 1] != p[1]
    ensures !Contains(s, p)
  {
    forall i | 0 <= i <= |s| ensures !StartsWith(s[i..], p) {
      if i <= |s| - |p| {
        assert s[i..][..|p|][0] == s[i] && s[i..][..|p|][1] == s[i + 1];
      }
    }
  }

  /** The index of the first occurrence of `c` in `s`, if any. */
  function IndexOf(s: string, c: char): (r: Option<nat>)
    ensures r.None? <==> c !in s
    ensures r.Some? ==> r.value < |s| && s[r.value] == c && c !in s[..r.value]
  {
    if |s| == 0 then None
    else if s[0] == c then Some(0)
    else
      match IndexOf(s[1..], c)
      case None => None
      case Some(i) =>
        assert s[..i + 1] == [s[0]] + s[1..][..i];
        Some(i + 1)
  }

  /** Element 1 of `s.split(".")`: the text between the first dot and the
      next dot (or the end). Python raises IndexError when `s` has no dot;
      that case is `None` here. */
  function SecondSegment(s: string): (r: Option<string>)
    ensures r.None? <==> '.' !in s
    ensures r.Some? ==> '.' !in r.value
  {
    match IndexOf(s, '.')
    case None => None
    case Some(i) =>
      var rest := s[i + 1..];
      match IndexOf(rest, '.')
      case None => Some(rest)
      case Some(j) => Some(rest[..j])
  }

  /** Splitting round trip: for a tag made of a dot-free head, a dot, a
      dot-free segment and a tail that is empty or starts with a dot, the
      second segment is exactly that segment. */
  lemma SecondSegmentOf(head: string, k: string, tail: string)
    requires '.' !in head && '.' !in k
    requires tail == [] || tail[0] == '.'
    ensures SecondSegment(head + "." + k + tail) == Some(k)
  {
    var s := head + "." + k + tail;
    assert s[..|head|] == head;
    assert s[|head|] == '.';
    var rest := s[|head| + 1..];
    assert rest == k + tail;
    if tail == [] {
      assert rest == k;
    } else {
      assert rest[|k|] == '.';
      assert rest[..|k|] == k;
    }
  }
}
