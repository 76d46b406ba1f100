/**
 The Python string primitives the migration relies on, over `seq<char>`:
 `str.split(sep)`, `sep.join(pieces)`, `str.strip()`, the substring test
 `sub in s`, `str.replace(old, new)`, the last path segment
 (`path.split('/')[-1]`) and `os.path.dirname`.
 */
module Text {

  /** The characters `str.strip()` removes (ASCII whitespace). */
  predicate IsSpace(c: char) {
    c == ' ' || c == '\t' || c == '\n' || c == '\r' || c == '\U{000B}' || c == '\U{000C}'
  }

  // ---------------------------------------------------------------------------
  // split and join

  /** `sep.join(pieces)`. */
  function Join(pieces: seq<string>, sep: char): string
  {
    if |pieces| == 0 then []
    else if |pieces| == 1 then pieces[0]
    else pieces[0] + [sep] + Join(pieces[1..], sep)
  }

  /**
   `s.split(sep)`: the maximal separator-free pieces between separators;
   there is always at least one piece (`"".split(sep)` is `[""]`).
   */
  function SplitOn(s: string, sep: char): (pieces: seq<string>)
    ensures |pieces| >= 1
    ensures forall i :: 0 <= i < |pieces| ==> sep !in pieces[i]
    decreases |s|
  {
    if s == [] then [[]]
    else
      var rest := SplitOn(s[1..], sep);
      if s[0] == sep then [[]] + rest
      else [[s[0]] + rest[0]] + rest[1..]
  }

  /** Joining the pieces back with the separator gives the original string. */
  lemma {:induction false} JoinSplit(s: string, sep: char)
    ensures Join(SplitOn(s, sep), sep) == s
    decreases |s|
  {
    if s != [] {
      var rest := SplitOn(s[1..], sep);
      JoinSplit(s[1..], sep);
      if s[0] == sep {
        assert ([[]] + rest)[1..] == rest;
        assert Join([[]] + rest, sep) == [] + [sep] + Join(rest, sep);
      } else {
        var pieces := [[s[0]] + rest[0]] + rest[1..];
        assert pieces[1..] == rest[1..];
        if |rest| > 1 {
          assert Join(rest, sep) == rest[0] + [sep] + Join(rest[1..], sep);
        }
        assert Join(pieces, sep) == s;
      }
    }
  }

  /** A separator-free string is one piece. */
  lemma {:induction false} SplitWithoutSeparator(s: string, sep: char)
    requires sep !in s
    ensures SplitOn(s, sep) == [s]
    decreases |s|
  {
    if s != [] {
      assert s[0] != sep && sep !in s[1..];
      SplitWithoutSeparator(s[1..], sep);
      var rest := SplitOn(s[1..], sep);
      assert rest == [s[1..]];
      assert SplitOn(s, sep) == [[s[0]] + rest[0]] + rest[1..];
      assert [s[0]] + s[1..] == s;
    }
  }

  /** Splitting `p + [sep] + rest` yields `p` followed by the pieces of `rest`. */
  lemma SplitAtSeparator(p: string, rest: string, sep: char)
    requires sep !in p
    ensures SplitOn(p + [sep] + rest, sep) == [p] + SplitOn(rest, sep)
    decreases |p|
  {
    var s := p + [sep] + rest;
    if p == [] {
      assert s[0] == sep && s[1..] == rest;
    } else {
      assert s[0] == p[0] && s[1..] == p[1..] + [sep] + rest;
      SplitAtSeparator(p[1..], rest, sep);
      var tail := SplitOn(s[1..], sep);
      assert tail == [p[1..]] + SplitOn(rest, sep);
      assert SplitOn(s, sep) == [[p[0]] + tail[0]] + tail[1..];
      assert [p[0]] + p[1..] == p;
      assert tail[1..] == SplitOn(rest, sep);
    }
  }

  /**
   The inverse round trip: splitting a join of separator-free pieces gives the
   pieces back (at least one piece, since `"".split(sep)` is `[""]`).
   */
  lemma {:induction false} SplitJoin(pieces: seq<string>, sep: char)
    requires |pieces| >= 1
    requires forall i :: 0 <= i < |pieces| ==> sep !in pieces[i]
    ensures SplitOn(Join(pieces, sep), sep) == pieces
    decreases |pieces|
  {
    if |pieces| == 1 {
      SplitWithoutSeparator(pieces[0], sep);
    } else {
      SplitJoin(pieces[1..], sep);
      SplitAtSeparator(pieces[0], Join(pieces[1..], sep), sep);
      assert [pieces[0]] + pieces[1..] == pieces;
    }
  }

  // ---------------------------------------------------------------------------
  // strip

  /** How many leading characters of `s` are whitespace. */
  function LeadingSpaces(s: string): (n: nat)
    ensures n <= |s|
    ensures forall k :: 0 <= k < n ==> IsSpace(s[k])
    ensures n < |s| ==> !IsSpace(s[n])
    decreases |s|
  {
    if s == [] || !IsSpace(s[0]) then 0 else 1 + LeadingSpaces(s[1..])
  }

  /** How many trailing characters of `s` are whitespace. */
  function TrailingSpaces(s: string): (n: nat)
    ensures n <= |s|
    ensures forall k :: |s| - n <= k < |s| ==> IsSpace(s[k])
    ensures n < |s| ==> !IsSpace(s[|s| - 1 - n])
    decreases |s|
  {
    if s == [] || !IsSpace(s[|s| - 1]) then 0 else 1 + TrailingSpaces(s[..|s| - 1])
  }

  /**
   `s.strip()`: the infix of `s` that starts after its leading whitespace and
   stops before its trailing whitespace; it neither starts nor ends with
   whitespace.
   */
  function Strip(s: string): (r: string)
    ensures LeadingSpaces(s) + |r| <= |s|
    ensures r == s[LeadingSpaces(s)..LeadingSpaces(s) + |r|]
    ensures forall k :: LeadingSpaces(s) + |r| <= k < |s| ==> IsSpace(s[k])
    ensures r == [] || (!IsSpace(r[0]) && !IsSpace(r[|r| - 1]))
  {
    var i := LeadingSpaces(s);
    var t := s[i..];
    var j := TrailingSpaces(t);
    var r := t[..|t| - j];
    assert r == s[i..i + |r|];
    r
  }

  /** `[p.strip() for p in pieces]`. */
  function StripAll(pieces: seq<string>): (stripped: seq<string>)
    ensures |stripped| == |pieces|
    ensures forall i :: 0 <= i < |pieces| ==> stripped[i] == Strip(pieces[i])
  {
    if pieces == [] then [] else [Strip(pieces[0])] + StripAll(pieces[1..])
  }

  /** Stripping never introduces a character the input did not have. */
  lemma StripKeepsOut(s: string, c: char)
    requires c !in s
    ensures c !in Strip(s)
  {
    var r := Strip(s);
    var i := LeadingSpaces(s);
    assert forall k :: 0 <= k < |r| ==> r[k] == s[i + k];
  }

  /** A string without whitespace at either end is its own strip. */
  lemma StripUnpadded(s: string)
    requires s == [] || (!IsSpace(s[0]) && !IsSpace(s[|s| - 1]))
    ensures Strip(s) == s
  {
    assert LeadingSpaces(s) == 0;
  }

  /** Stripping a string with one leading blank gives back the unpadded string. */
  lemma StripLeadingBlank(s: string)
    requires s != [] && !IsSpace(s[0]) && !IsSpace(s[|s| - 1])
    ensures Strip(" " + s) == s
  {
    var p := " " + s;
    assert p[1..] == s;
    assert LeadingSpaces(s) == 0;
    assert LeadingSpaces(p) == 1;
    assert p[|p| - 1] == s[|s| - 1];
  }

  // ---------------------------------------------------------------------------
  // substring test and replace-all

  /** Python's `sub in s` on strings: `sub` occurs somewhere in `s`. */
  predicate Contains(s: string, sub: string)
    decreases |s|
  {
    sub <= s || (s != [] && Contains(s[1..], sub))
  }

  /** A string occurs in any string it begins. */
  lemma ContainsPrefix(s: string, rest: string)
    ensures Contains(s + rest, s)
  {
    assert s <= s + rest;
  }

  /** An occurrence is an occurrence in any longer string that ends with it. */
  lemma ContainsAfter(prefix: string, s: string, sub: string)
    requires Contains(s, sub)
    ensures Contains(prefix + s, sub)
    decreases |prefix|
  {
    if prefix == [] {
      assert prefix + s == s;
    } else {
      ContainsAfter(prefix[1..], s, sub);
      assert (prefix + s)[1..] == prefix[1..] + s;
    }
  }

  /** Whatever contains `x + y` contains `y`. */
  lemma {:induction false} ContainsTail(s: string, x: string, y: string)
    requires Contains(s, x + y)
    ensures Contains(s, y)
    decreases |s|
  {
    if x + y <= s {
      assert s == s[..|x|] + s[|x|..];
      assert y <= s[|x|..];
      ContainsAfter(s[..|x|], s[|x|..], y);
    } else {
      ContainsTail(s[1..], x, y);
    }
  }

  /**
   `s.replace(pat, rep)`: every leftmost, non-overlapping occurrence of `pat`
   is replaced by `rep`, scanning left to right.
   */
  function ReplaceAll(s: string, pat: string, rep: string): string
    requires pat != []
    decreases |s|
  {
    if pat <= s then rep + ReplaceAll(s[|pat|..], pat, rep)
    else if s == [] then []
    else [s[0]] + ReplaceAll(s[1..], pat, rep)
  }

  /** Replacing a pattern that does not occur leaves the string unchanged. */
  lemma {:induction false} ReplaceAbsent(s: string, pat: string, rep: string)
    requires pat != []
    requires !Contains(s, pat)
    ensures ReplaceAll(s, pat, rep) == s
    decreases |s|
  {
    if s != [] {
      ReplaceAbsent(s[1..], pat, rep);
      assert [s[0]] + s[1..] == s;
    }
  }

  /** Replacing a pattern by itself changes nothing. */
  lemma {:induction false} ReplaceSame(s: string, pat: string)
    requires pat != []
    ensures ReplaceAll(s, pat, pat) == s
    decreases |s|
  {
    if pat <= s {
      ReplaceSame(s[|pat|..], pat);
      assert pat + s[|pat|..] == s;
    } else if s != [] {
      ReplaceSame(s[1..], pat);
      assert [s[0]] + s[1..] == s;
    }
  }

  /** Once a pattern occurs, its replacement occurs in the result. */
  lemma {:induction false} ReplaceLeavesReplacement(s: string, pat: string, rep: string)
    requires pat != []
    requires Contains(s, pat)
    ensures Contains(ReplaceAll(s, pat, rep), rep)
    decreases |s|
  {
    if pat <= s {
      assert rep <= rep + ReplaceAll(s[|pat|..], pat, rep);
    } else {
      ReplaceLeavesReplacement(s[1..], pat, rep);
      ContainsAfter([s[0]], ReplaceAll(s[1..], pat, rep), rep);
    }
  }

  // ---------------------------------------------------------------------------
  // lines

  /** The number of line breaks in `s`. */
  function LineBreaks(s: string): nat
    decreases |s|
  {
    if s == [] then 0 else (if s[0] == '\n' then 1 else 0) + LineBreaks(s[1..])
  }

  lemma {:induction false} LineBreaksAppend(a: string, b: string)
    ensures LineBreaks(a + b) == LineBreaks(a) + LineBreaks(b)
    decreases |a|
  {
    if a == [] {
      assert a + b == b;
    } else {
      assert (a + b)[1..] == a[1..] + b;
      LineBreaksAppend(a[1..], b);
    }
  }

  /** A string without a line break has none to count. */
  lemma {:induction false} NoLineBreaks(s: string)
    requires '\n' !in s
    ensures LineBreaks(s) == 0
    decreases |s|
  {
    if s != [] {
      assert '\n' !in s[1..];
      NoLineBreaks(s[1..]);
    }
  }

  // ---------------------------------------------------------------------------
  // paths

  /** `path.split('/')[-1]`: the last slash-separated segment of a path. */
  function Basename(path: string): (name: string)
    ensures '/' !in name
    ensures '/' !in path ==> name == path
  {
    var i := AfterLastSlash(path);
    assert '/' !in path ==> i == 0;
    path[i..]
  }

  /** The last piece of a split that crosses a separator is the last piece of what follows it. */
  lemma {:induction false} SplitLastPiece(a: string, b: string, sep: char)
    ensures var pieces := SplitOn(a + [sep] + b, sep);
            |pieces| >= 2 && pieces[|pieces| - 1] == SplitOn(b, sep)[|SplitOn(b, sep)| - 1]
    decreases |a|
  {
    var s := a + [sep] + b;
    if a == [] {
      assert s[0] == sep && s[1..] == b;
    } else {
      assert s[0] == a[0] && s[1..] == a[1..] + [sep] + b;
      SplitLastPiece(a[1..], b, sep);
    }
  }

  /** The base name is the last piece of `path.split('/')`. */
  lemma BasenameIsLastPiece(path: string)
    ensures var pieces := SplitOn(path, '/');
            Basename(path) == pieces[|pieces| - 1]
  {
    var i := AfterLastSlash(path);
    assert '/' !in path[i..] by {
      forall k | 0 <= k < |path[i..]|
        ensures path[i..][k] != '/'
      {
        assert path[i..][k] == path[i + k];
      }
    }
    if i == 0 {
      assert path[i..] == path;
      SplitWithoutSeparator(path, '/');
    } else {
      assert path == path[..i - 1] + ['/'] + path[i..];
      SplitLastPiece(path[..i - 1], path[i..], '/');
      SplitWithoutSeparator(path[i..], '/');
    }
  }

  /** The position just after the last `/` of `p`, or 0 when there is none. */
  function AfterLastSlash(p: string): (i: nat)
    ensures i <= |p|
    ensures i > 0 ==> p[i - 1] == '/'
    ensures forall k :: i <= k < |p| ==> p[k] != '/'
    decreases |p|
  {
    if p == [] then 0
    else if p[|p| - 1] == '/' then |p|
    else AfterLastSlash(p[..|p| - 1])
  }

  /** `s.rstrip('/')`. */
  function TrimSlashes(s: string): (r: string)
    ensures r <= s
    ensures r == [] || r[|r| - 1] != '/'
    ensures forall k :: |r| <= k < |s| ==> s[k] == '/'
    decreases |s|
  {
    if s != [] && s[|s| - 1] == '/' then TrimSlashes(s[..|s| - 1]) else s
  }

  /**
   Python 2's `os.path.dirname`: the part of the path up to its last slash,
   with the trailing slashes removed unless the head consists of slashes only.
   */
  function Dirname(p: string): (d: string)
  {
    var head := p[..AfterLastSlash(p)];
    if head != [] && exists k :: 0 <= k < |head| && head[k] != '/' then TrimSlashes(head) else head
  }

  /** The directory of a top-level wiki page path `/wikis/<name>` is `/wikis`. */
  lemma DirnameOfWikiPath(name: string)
    requires '/' !in name
    ensures Dirname("/wikis/" + name) == "/wikis"
  {
    var p := "/wikis/" + name;
    assert p[6] == '/';
    assert forall k :: 7 <= k < |p| ==> p[k] == name[k - 7];
    assert AfterLastSlash(p) == 7;
    assert p[..7] == "/wikis/";
    assert p[..7][1] != '/';
    assert TrimSlashes("/wikis/") == TrimSlashes("/wikis");
  }
}
