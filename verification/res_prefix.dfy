/**
  The prefix that `getImgOutputPath` removes from the directory of an asset:
  the regular expression `^.*[/\\]res[/\\]` replaced by the empty string.

  Because `.*` is greedy the match ends at the LAST `res` segment that has a
  separator (`/` or `\`) on both sides. A JavaScript `.` does not match a line
  terminator, so a marker only counts when no line terminator comes before it.
 */
module ResPrefix {

  /** A character of the class `[/\\]`. */
  predicate IsSeparator(c: char)
  {
    c == '/' || c == '\\'
  }

  /** The characters a JavaScript `.` refuses to match. */
  predicate IsLineTerminator(c: char)
  {
    c == '\n' || c == '\r' || c == '\U{2028}' || c == '\U{2029}'
  }

  /** `s` holds a separator, `res` and a separator starting at index `i`. */
  predicate MarkerAt(s: seq<char>, i: int)
  {
    0 <= i && i + 5 <= |s|
    && IsSeparator(s[i]) && s[i + 1] == 'r' && s[i + 2] == 'e' && s[i + 3] == 's'
    && IsSeparator(s[i + 4])
  }

  /** The regular expression matches `s[..i + 5]`, with `.*` covering `s[..i]`. */
  predicate MatchesAt(s: seq<char>, i: int)
  {
    MarkerAt(s, i) && forall k :: 0 <= k < i ==> !IsLineTerminator(s[k])
  }

  /** Some prefix of `s` matches the regular expression. */
  predicate HasResPrefix(s: seq<char>)
  {
    exists i :: 0 <= i < |s| && MatchesAt(s, i)
  }

  /** The largest index below `n` where the regular expression can end its `.*`, or -1. */
  function LastMatchBelow(s: seq<char>, n: nat): (r: int)
    ensures -1 <= r < n
    ensures r >= 0 ==> MatchesAt(s, r)
    ensures forall k :: r < k < n ==> !MatchesAt(s, k)
  {
    if n == 0 then -1
    else if MatchesAt(s, n - 1) then n - 1
    else LastMatchBelow(s, n - 1)
  }

  /** Where the greedy `.*` stops, or -1 when the regular expression does not match. */
  function LastMatch(s: seq<char>): (r: int)
    ensures -1 <= r
    ensures r >= 0 ==> MatchesAt(s, r)
    ensures forall k :: r < k ==> !MatchesAt(s, k)
    ensures r == -1 <==> !HasResPrefix(s)
  {
    LastMatchBelow(s, |s|)
  }

  /**
    `dir.replace(/^.*[/\\]res[/\\]/, "")`: everything up to and including the
    last separator-`res`-separator is removed; without one, `dir` is returned.
   */
  function StripResPrefix(dir: seq<char>): (r: seq<char>)
    ensures |r| <= |dir| && r == dir[|dir| - |r|..]
    ensures r == dir <==> !HasResPrefix(dir)
    ensures r != dir ==> MatchesAt(dir, |dir| - |r| - 5)
    ensures forall k :: |dir| - |r| - 5 < k ==> !MatchesAt(dir, k)
  {
    var i := LastMatch(dir);
    if i < 0 then dir else dir[i + 5..]
  }

  /**
    Stripping twice strips nothing more: the greedy match already removed the
    innermost `res` segment, so no marker is left in front of the remainder.
   */
  lemma StripResPrefixIdempotent(dir: seq<char>)
    ensures StripResPrefix(StripResPrefix(dir)) == StripResPrefix(dir)
  {
    var r := StripResPrefix(dir);
    if r != dir {
      var i := |dir| - |r| - 5;
      forall j | 0 <= j < |r|
        ensures !MatchesAt(r, j)
      {
        MatchAfterMatch(dir, i, j);
      }
    }
  }

  /** A match in what follows a match is a match further along the whole text. */
  lemma MatchAfterMatch(dir: seq<char>, i: int, j: int)
    requires MatchesAt(dir, i)
    ensures MatchesAt(dir[i + 5..], j) ==> MatchesAt(dir, i + 5 + j)
  {
    var r := dir[i + 5..];
    if MatchesAt(r, j) {
      assert forall m :: 0 <= m < |r| ==> r[m] == dir[i + 5 + m];
      forall k | 0 <= k < i + 5 + j
        ensures !IsLineTerminator(dir[k])
      {
        if k >= i + 5 {
          assert dir[k] == r[k - i - 5];
        }
      }
    }
  }

  /** A directory with the marker at `|p|` and none after it loses exactly `p` and the marker. */
  lemma StripAtLastMarker(p: seq<char>, sub: seq<char>)
    requires forall k :: 0 <= k < |p| ==> !IsLineTerminator(p[k])
    requires forall k :: !MarkerAt("/" + sub, k)
    ensures StripResPrefix(p + "/res/" + sub) == sub
  {
    var dir := p + "/res/" + sub;
    var t := "/" + sub;
    assert MatchesAt(dir, |p|);
    assert forall m :: 0 <= m < |t| ==> dir[|p| + 4 + m] == t[m];
    forall k | |p| < k
      ensures !MarkerAt(dir, k)
    {
      if k < |p| + 4 {
        assert dir[k + 1] == "res/"[k - |p|];
      } else {
        assert !MarkerAt(t, k - |p| - 4);
      }
    }
    var r := StripResPrefix(dir);
    assert |dir| - |r| - 5 == |p|;
    assert dir[|p| + 5..] == sub;
  }

  /** A directory without a separator on both sides of any `res` is left alone. */
  lemma NoMarkerKeepsDirectory(dir: seq<char>)
    requires forall k :: !MarkerAt(dir, k)
    ensures StripResPrefix(dir) == dir
  {
  }

  /** Nested `res` directories are stripped to the innermost one. */
  lemma NestedResExample()
    ensures StripResPrefix("/p/res/a/res/icons") == "icons"
  {
    assert "/p/res/a/res/icons" == "/p/res/a" + "/res/" + "icons";
    assert forall k :: !MarkerAt("/icons", k) by {
      forall k ensures !MarkerAt("/icons", k) {
        if 0 <= k && k + 5 <= 6 {
          assert k == 0 || k == 1;
        }
      }
    }
    StripAtLastMarker("/p/res/a", "icons");
  }

  /** `fres`, or `res` without a separator after it, is not a marker. */
  lemma UnmarkedExamples()
    ensures StripResPrefix("/p/fres/img") == "/p/fres/img"
    ensures StripResPrefix("/p/res") == "/p/res"
    ensures StripResPrefix("/p/res.d/img") == "/p/res.d/img"
  {
    var a, b, c := "/p/fres/img", "/p/res", "/p/res.d/img";
    forall k ensures !MarkerAt(a, k) {
      if 0 <= k && k + 5 <= |a| {
        assert k in {0, 1, 2, 3, 4, 5, 6};
      }
    }
    forall k ensures !MarkerAt(b, k) {
      if 0 <= k && k + 5 <= |b| {
        assert k in {0, 1};
      }
    }
    forall k ensures !MarkerAt(c, k) {
      if 0 <= k && k + 5 <= |c| {
        assert k in {0, 1, 2, 3, 4, 5, 6, 7};
      }
    }
    NoMarkerKeepsDirectory(a);
    NoMarkerKeepsDirectory(b);
    NoMarkerKeepsDirectory(c);
  }
}
