/**
 * The path helpers of util.cpp on paths as byte strings (a `std::string`
 * holds bytes), with '/' the separator: `splitPath` cuts a path into the
 * tokens `std::getline` extracts, `splitPathParent` cuts it at its last
 * separator.
 */
module Paths {
  import opened Bytes

  const SLASH: byte := 0x2F

  /** No byte of s is a separator. */
  predicate NoSlash(s: seq<byte>)
  {
    forall i | 0 <= i < |s| :: s[i] != SLASH
  }

  /** The number of separators in s. */
  function Slashes(s: seq<byte>): nat
  {
    if s == [] then 0 else Slashes(s[..|s| - 1]) + (if s[|s| - 1] == SLASH then 1 else 0)
  }

  /**
   * The runs of s between separators, the empty ones included: one more
   * than there are separators, none holding a separator.
   */
  function Segments(s: seq<byte>): (r: seq<seq<byte>>)
    ensures |r| == Slashes(s) + 1
    ensures forall k | 0 <= k < |r| :: NoSlash(r[k])
  {
    if s == [] then [[]]
    else
      var init := Segments(s[..|s| - 1]);
      var c := s[|s| - 1];
      if c == SLASH then init + [[]]
      else
        var last := init[|init| - 1] + [c];
        assert NoSlash(last) by {
          assert forall i | 0 <= i < |last| - 1 :: last[i] == init[|init| - 1][i];
        }
        init[..|init| - 1] + [last]
  }

  /** The last segment is empty exactly when s is empty or ends with a separator. */
  lemma SegmentsLast(s: seq<byte>)
    ensures var g := Segments(s); g[|g| - 1] == [] <==> s == [] || s[|s| - 1] == SLASH
  {
  }

  /**
   * The tokens `std::getline(iss, token, '/')` extracts from s: every
   * segment, except a last one that is empty, since getline fails when it
   * reaches the end without extracting anything.
   */
  function Tokens(s: seq<byte>): (r: seq<seq<byte>>)
    ensures forall k | 0 <= k < |r| :: NoSlash(r[k])
    ensures |r| == Slashes(s) + (if s != [] && s[|s| - 1] != SLASH then 1 else 0)
  {
    var g := Segments(s);
    SegmentsLast(s);
    if g[|g| - 1] == [] then g[..|g| - 1] else g
  }

  /**
   * `splitPath(path)`: the getline loop. A token ends at each separator and
   * is pushed, empty or not; what follows the last separator is pushed only
   * when it is not empty.
   */
  method SplitPath(path: seq<byte>) returns (result: seq<seq<byte>>)
    ensures result == Tokens(path)
  {
    result := [];
    var token: seq<byte> := [];
    var i := 0;
    while i < |path|
      invariant 0 <= i <= |path|
      invariant result + [token] == Segments(path[..i])
    {
      assert path[..i + 1][..i] == path[..i];
      if path[i] == SLASH {
        result, token := result + [token], [];
      } else {
        ghost var g := result + [token];
        assert g[..|g| - 1] == result;
        token := token + [path[i]];
      }
      i := i + 1;
    }
    assert path[..i] == path;
    ghost var g := result + [token];
    assert g[..|g| - 1] == result;
    if token != [] {
      result := result + [token];
    }
  }

  /** The tokens put back together with a separator between each two. */
  function Join(ts: seq<seq<byte>>): seq<byte>
    requires |ts| > 0
  {
    if |ts| == 1 then ts[0] else Join(ts[..|ts| - 1]) + [SLASH] + ts[|ts| - 1]
  }

  /** Extending the last token extends the joined path. */
  lemma {:induction false} JoinExtend(ts: seq<seq<byte>>, c: byte)
    requires |ts| > 0
    ensures Join(ts[..|ts| - 1] + [ts[|ts| - 1] + [c]]) == Join(ts) + [c]
  {
    var us := ts[..|ts| - 1] + [ts[|ts| - 1] + [c]];
    if |ts| > 1 {
      assert us[..|us| - 1] == ts[..|ts| - 1];
    }
  }

  /** Joining the segments of s gives s back. */
  lemma {:induction false} JoinSegments(s: seq<byte>)
    ensures Join(Segments(s)) == s
    decreases |s|
  {
    if s != [] {
      var init := Segments(s[..|s| - 1]);
      JoinSegments(s[..|s| - 1]);
      if s[|s| - 1] == SLASH {
        var g := init + [[]];
        assert g[..|g| - 1] == init;
      } else {
        JoinExtend(init, s[|s| - 1]);
      }
      assert s[..|s| - 1] + [s[|s| - 1]] == s;
    }
  }

  /**
   * Joining the tokens gives the path back, less one separator at its end:
   * `splitPath` loses only a trailing '/'.
   */
  lemma TokensRoundTrip(s: seq<byte>)
    requires s != []
    ensures s[|s| - 1] != SLASH ==> Join(Tokens(s)) == s
    ensures s[|s| - 1] == SLASH ==> |Tokens(s)| > 0 && Join(Tokens(s)) + [SLASH] == s
  {
    JoinSegments(s);
    SegmentsLast(s);
    if s[|s| - 1] == SLASH {
      var init := Segments(s[..|s| - 1]);
      var g := init + [[]];
      assert g[..|g| - 1] == init;
      JoinSegments(s[..|s| - 1]);
      assert s[..|s| - 1] + [SLASH] == s;
    }
  }

  /** A path starting with a separator has an empty first segment and at least two. */
  lemma {:induction false} LeadingSegment(s: seq<byte>)
    requires s != [] && s[0] == SLASH
    ensures |Segments(s)| >= 2 && Segments(s)[0] == []
    decreases |s|
  {
    if |s| > 1 {
      LeadingSegment(s[..|s| - 1]);
    }
  }

  /** A leading '/' gives an empty first token, the one `readdir` skips. */
  lemma LeadingToken(s: seq<byte>)
    requires s != [] && s[0] == SLASH
    ensures |Tokens(s)| > 0 && Tokens(s)[0] == []
  {
    LeadingSegment(s);
  }

  /** `splitPath("")` has no token and `splitPath("/")` the one empty token. */
  lemma TokensOfRoot()
    ensures Tokens([]) == []
    ensures Tokens([SLASH]) == [[]]
  {
    assert [SLASH][..0] == [];
  }

  /** A path `readdir` accepts: empty, or starting with a separator. */
  predicate Absolute(path: seq<byte>)
  {
    path == [] || path[0] == SLASH
  }

  /** The index of the last separator of s, `find_last_of('/')`; None for `npos`. */
  function LastSlash(s: seq<byte>): (r: Option<nat>)
    ensures r.None? <==> NoSlash(s)
    ensures r.Some? ==> r.value < |s| && s[r.value] == SLASH && NoSlash(s[r.value + 1..])
  {
    if s == [] then None
    else if s[|s| - 1] == SLASH then Some(|s| - 1)
    else
      var r := LastSlash(s[..|s| - 1]);
      assert r.Some? ==> s[r.value + 1..] == s[..|s| - 1][r.value + 1..] + [s[|s| - 1]];
      r
  }

  /**
   * `splitPathParent(path)`: ("", path) when path has no separator, and
   * otherwise the parts before and after its last one.
   */
  function SplitParent(path: seq<byte>): (r: (seq<byte>, seq<byte>))
    ensures NoSlash(path) ==> r == ([], path)
    ensures !NoSlash(path) ==> r.0 + [SLASH] + r.1 == path && NoSlash(r.1)
  {
    match LastSlash(path)
    case None => ([], path)
    case Some(pos) =>
      assert path[..pos] + [SLASH] + path[pos + 1..] == path;
      (path[..pos], path[pos + 1..])
  }

  /** The cut is undone by joining: a parent, a separator and a name without one split back into the two. */
  lemma SplitParentJoin(parent: seq<byte>, name: seq<byte>)
    requires NoSlash(name)
    ensures SplitParent(parent + [SLASH] + name) == (parent, name)
  {
    var s := parent + [SLASH] + name;
    assert s[|parent|] == SLASH;
    var pos := LastSlash(s).value;
    if pos < |parent| {
      assert false;
    } else if pos > |parent| {
      assert false;
    }
    assert s[..pos] == parent && s[pos + 1..] == name;
  }

  /** `splitPathParent("/test")` is ("", "test"). */
  lemma SplitParentOfTest()
    ensures SplitParent([SLASH] + TEST) == ([], TEST)
  {
    SplitParentJoin([], TEST);
    assert [] + [SLASH] + TEST == [SLASH] + TEST;
  }

  /** "test" in bytes. */
  const TEST: seq<byte> := [0x74, 0x65, 0x73, 0x74]

  /** The parent of a path `readdir` accepts is one too. */
  lemma ParentAbsolute(path: seq<byte>)
    requires Absolute(path)
    ensures Absolute(SplitParent(path).0)
  {
  }
}
