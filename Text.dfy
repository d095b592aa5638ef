/** The Python string built-ins the traceback formatter relies on: the
    substring test `sub in s`, `str.splitlines` (on '\n' only) and
    `sep.join(parts)`. */
module Text {

  /** `sub` occurs in `s` starting at index `i`. */
  ghost predicate OccursAt(s: string, sub: string, i: nat) {
    i + |sub| <= |s| && s[i..i + |sub|] == sub
  }

  /** `sub` is a substring of `s` (so the empty string is a substring of every string). */
  ghost predicate IsSubstring(sub: string, s: string) {
    exists i: nat :: OccursAt(s, sub, i)
  }

  /** Python's `sub in s`, as a scan of `s` from the left: true exactly when
      `sub` occurs somewhere in `s`. */
  function Contains(s: string, sub: string): (found: bool)
    ensures found <==> IsSubstring(sub, s)
    decreases |s|
  {
    if |sub| > |s| then false
    else if s[..|sub|] == sub then assert OccursAt(s, sub, 0); true
    else SubstringAfterFirst(s, sub); Contains(s[1..], sub)
  }

  /** When `sub` does not start `s`, it occurs in `s` exactly when it occurs
      after the first character. */
  lemma SubstringAfterFirst(s: string, sub: string)
    requires |sub| <= |s| && s[..|sub|] != sub
    ensures IsSubstring(sub, s) <==> IsSubstring(sub, s[1..])
  {
    if IsSubstring(sub, s[1..]) {
      var j: nat :| OccursAt(s[1..], sub, j);
      assert s[1..][j..j + |sub|] == s[j + 1..j + 1 + |sub|];
      assert OccursAt(s, sub, j + 1);
    }
    if IsSubstring(sub, s) {
      var i: nat :| OccursAt(s, sub, i);
      assert i != 0;
      assert s[1..][i - 1..i - 1 + |sub|] == s[i..i + |sub|];
      assert OccursAt(s[1..], sub, i - 1);
    }
  }

  /** Being a substring is transitive. */
  lemma SubstringTransitive(a: string, b: string, c: string)
    requires IsSubstring(a, b) && IsSubstring(b, c)
    ensures IsSubstring(a, c)
  {
    var i: nat :| OccursAt(b, a, i);
    var j: nat :| OccursAt(c, b, j);
    assert b == c[j..j + |b|];
    assert a == b[i..i + |a|];
    assert c[j + i..j + i + |a|] == a by {
      forall k | 0 <= k < |a| ensures c[j + i..j + i + |a|][k] == a[k] {
        assert a[k] == b[i + k] == c[j + i + k];
      }
    }
    assert OccursAt(c, a, j + i);
  }

  /** `s` is empty or its last character is a newline. */
  predicate EndsLine(s: string) {
    s == [] || s[|s| - 1] == '\n'
  }

  /** Splitting on every '\n': the pieces between separators, so a string with
      n newlines has n + 1 pieces, the last one possibly empty. */
  function Split(t: string): (pieces: seq<string>)
    ensures |pieces| >= 1
    ensures forall k :: 0 <= k < |pieces| ==> '\n' !in pieces[k]
    decreases |t|
  {
    if t == [] then [[]]
    else
      var rest := Split(t[1..]);
      if t[0] == '\n' then [[]] + rest
      else [[t[0]] + rest[0]] + rest[1..]
  }

  /** `str.splitlines()` restricted to '\n' as the only line boundary: "" gives
      no line, and a final newline gives no trailing empty line. */
  function SplitLines(s: string): (lines: seq<string>)
    ensures forall k :: 0 <= k < |lines| ==> '\n' !in lines[k]
  {
    var pieces := Split(s);
    if pieces[|pieces| - 1] == [] then pieces[..|pieces| - 1] else pieces
  }

  /** `sep.join(parts)`: every part occurs in the result. */
  function Join(parts: seq<string>, sep: string): (joined: string)
    ensures forall k :: 0 <= k < |parts| ==> IsSubstring(parts[k], joined)
  {
    if |parts| == 0 then []
    else if |parts| == 1 then assert OccursAt(parts[0], parts[0], 0); parts[0]
    else
      var rest := Join(parts[1..], sep);
      OccursInConcat(parts[0], sep + rest);
      OccursInConcat(parts[0] + sep, rest);
      assert parts[0] + sep + rest == parts[0] + (sep + rest);
      assert forall k :: 1 <= k < |parts| ==> parts[k] == parts[1..][k - 1];
      parts[0] + sep + rest
  }

  /** `x` occurs in `x + y`, and so does everything that occurs in `y`. */
  lemma OccursInConcat(x: string, y: string)
    ensures IsSubstring(x, x + y)
    ensures forall sub :: IsSubstring(sub, y) ==> IsSubstring(sub, x + y)
  {
    assert OccursAt(x + y, x, 0);
    forall sub | IsSubstring(sub, y) ensures IsSubstring(sub, x + y) {
      var i: nat :| OccursAt(y, sub, i);
      assert (x + y)[|x| + i..|x| + i + |sub|] == y[i..i + |sub|];
      assert OccursAt(x + y, sub, |x| + i);
    }
  }

  /** Joining the '\n'-pieces of a string with '\n' gives the string back. */
  lemma {:induction false} JoinSplit(t: string)
    ensures Join(Split(t), "\n") == t
    decreases |t|
  {
    if t != [] {
      var rest := Split(t[1..]);
      JoinSplit(t[1..]);
      if t[0] == '\n' {
        assert ([[]] + rest)[1..] == rest;
      } else if |rest| > 1 {
        var head := [t[0]] + rest[0];
        assert ([head] + rest[1..])[1..] == rest[1..];
        assert Join(rest, "\n") == rest[0] + "\n" + Join(rest[1..], "\n");
        assert t == [t[0]] + t[1..];
      } else {
        assert t == [t[0]] + t[1..];
      }
    }
  }

  /** One step of `Split`, on a string given as its first character and the rest. */
  lemma SplitCons(c: char, t: string)
    ensures Split([c] + t) == if c == '\n' then [[]] + Split(t)
                              else [[c] + Split(t)[0]] + Split(t)[1..]
  {
    assert ([c] + t)[1..] == t;
  }

  /** A string without newlines is a single piece. */
  lemma {:induction false} SplitSingle(x: string)
    requires '\n' !in x
    ensures Split(x) == [x]
    decreases |x|
  {
    if x != [] {
      SplitSingle(x[1..]);
      assert x == [x[0]] + x[1..];
    }
  }

  /** Prefixing a character to the first piece commutes with appending pieces. */
  lemma ExtendFirstPiece(c: char, p: seq<string>, q: seq<string>)
    requires |p| >= 1
    ensures [[c] + (p + q)[0]] + (p + q)[1..] == ([[c] + p[0]] + p[1..]) + q
  {
    assert (p + q)[1..] == p[1..] + q;
  }

  /** A newline between `x` and `y` separates their pieces. */
  lemma {:induction false} SplitAround(x: string, y: string)
    ensures Split(x + "\n" + y) == Split(x) + Split(y)
    decreases |x|
  {
    if x == [] {
      assert x + "\n" + y == ['\n'] + y;
      SplitCons('\n', y);
      assert Split(x) == [[]];
    } else {
      var c, x', t := x[0], x[1..], x + "\n" + y;
      assert t[0] == c && t[1..] == x' + "\n" + y;
      SplitAround(x', y);
      var p, q := Split(x'), Split(y);
      if c == '\n' {
        assert Split(t) == [[]] + (p + q);
        assert Split(x) == [[]] + p;
      } else {
        assert Split(t) == [[c] + (p + q)[0]] + (p + q)[1..];
        assert Split(x) == [[c] + p[0]] + p[1..];
        ExtendFirstPiece(c, p, q);
      }
    }
  }

  /** The last piece of `Split(t)` is empty exactly when `t` ends a line. */
  lemma {:induction false} SplitLastPiece(t: string)
    ensures var p := Split(t); p[|p| - 1] == [] <==> EndsLine(t)
    decreases |t|
  {
    if t != [] {
      if t[1..] == [] {
        assert t == [t[0]];
      } else {
        SplitLastPiece(t[1..]);
        assert t[1..][|t[1..]| - 1] == t[|t| - 1];
      }
    }
  }

  /** A final newline ends the last line without starting another. */
  lemma SplitLinesFinalNewline(x: string)
    ensures SplitLines(x + "\n") == Split(x)
  {
    assert x + "\n" == x + "\n" + [];
    SplitAround(x, []);
    var p := Split(x) + [[]];
    assert p[..|p| - 1] == Split(x);
  }

  /** `SplitLines` agrees with the usual description of `str.splitlines`:
      "" has no lines, and one final newline is dropped before splitting. */
  lemma SplitLinesShape(s: string)
    ensures SplitLines(s) == if s == [] then []
                             else if s[|s| - 1] == '\n' then Split(s[..|s| - 1])
                             else Split(s)
  {
    if s == [] {
      assert Split(s) == [[]];
    } else if s[|s| - 1] == '\n' {
      assert s == s[..|s| - 1] + "\n";
      SplitLinesFinalNewline(s[..|s| - 1]);
    } else {
      SplitLastPiece(s);
    }
  }

  /** Rejoining the lines restores the text up to one final newline. */
  lemma JoinSplitLines(s: string)
    ensures Join(SplitLines(s), "\n") == if EndsLine(s) && s != [] then s[..|s| - 1] else s
  {
    SplitLinesShape(s);
    if s != [] {
      if s[|s| - 1] == '\n' { JoinSplit(s[..|s| - 1]); } else { JoinSplit(s); }
    }
  }

  /** Splitting is the inverse of joining with '\n', for newline-free parts. */
  lemma {:induction false} SplitJoin(parts: seq<string>)
    requires |parts| >= 1
    requires forall k :: 0 <= k < |parts| ==> '\n' !in parts[k]
    ensures Split(Join(parts, "\n")) == parts
    decreases |parts|
  {
    if |parts| == 1 {
      SplitSingle(parts[0]);
    } else {
      SplitJoin(parts[1..]);
      SplitSingle(parts[0]);
      SplitAround(parts[0], Join(parts[1..], "\n"));
      assert parts == [parts[0]] + parts[1..];
    }
  }

  /** The lines of a '\n'-join of newline-free parts are those parts, except
      that a trailing empty part is not a line of its own. */
  lemma SplitLinesJoin(parts: seq<string>)
    requires forall k :: 0 <= k < |parts| ==> '\n' !in parts[k]
    ensures SplitLines(Join(parts, "\n")) ==
      if parts != [] && parts[|parts| - 1] == [] then parts[..|parts| - 1] else parts
  {
    if parts != [] {
      SplitJoin(parts);
    }
  }

  /** Concatenating after a completed line concatenates the lines. */
  lemma SplitLinesAppend(a: string, b: string)
    requires EndsLine(a)
    ensures SplitLines(a + b) == SplitLines(a) + SplitLines(b)
  {
    if a == [] {
      assert a + b == b;
      assert Split(a) == [[]];
    } else if b == [] {
      assert a + b == a;
      assert Split(b) == [[]];
    } else {
      var x := a[..|a| - 1];
      assert a == x + "\n";
      SplitLinesFinalNewline(x);
      if b[|b| - 1] == '\n' {
        var z := b[..|b| - 1];
        assert b == z + "\n";
        assert a + b == (x + "\n" + z) + "\n";
        SplitLinesFinalNewline(x + "\n" + z);
        SplitLinesFinalNewline(z);
        SplitAround(x, z);
      } else {
        assert a + b == x + "\n" + b;
        assert (a + b)[|a + b| - 1] == b[|b| - 1];
        SplitLastPiece(a + b);
        SplitLastPiece(b);
        SplitAround(x, b);
      }
    }
  }

  /** Every line of a string occurs in it. */
  lemma LineInText(s: string, k: nat)
    requires k < |SplitLines(s)|
    ensures IsSubstring(SplitLines(s)[k], s)
  {
    var pieces := Split(s);
    assert SplitLines(s)[k] == pieces[k];
    JoinSplit(s);
  }

  /** A non-empty, newline-free string that occurs in a '\n'-join occurs in
      one of the joined parts: it cannot span a separator. */
  lemma {:induction false} NewlineFreeInJoin(parts: seq<string>, sub: string)
    requires sub != [] && '\n' !in sub
    requires IsSubstring(sub, Join(parts, "\n"))
    ensures exists k :: 0 <= k < |parts| && IsSubstring(sub, parts[k])
    decreases |parts|
  {
    var j := Join(parts, "\n");
    var i: nat :| OccursAt(j, sub, i);
    if |parts| == 1 {
      assert IsSubstring(sub, parts[0]);
    } else {
      var first, rest := parts[0], Join(parts[1..], "\n");
      assert j == first + "\n" + rest;
      if i + |sub| <= |first| {
        assert j[i..i + |sub|] == first[i..i + |sub|];
        assert OccursAt(first, sub, i);
      } else if i > |first| {
        var i' := i - |first| - 1;
        assert j[i..i + |sub|] == rest[i'..i' + |sub|];
        assert OccursAt(rest, sub, i');
        NewlineFreeInJoin(parts[1..], sub);
        var k :| 0 <= k < |parts[1..]| && IsSubstring(sub, parts[1..][k]);
        assert parts[k + 1] == parts[1..][k];
      } else {
        OccurrenceCovers(j, sub, i, |first|);
        assert false;
      }
    }
  }

  /** An occurrence of `sub` at `i` covers each position `p` of its span with
      the character of `sub` at `p - i`. */
  lemma OccurrenceCovers(s: string, sub: string, i: nat, p: nat)
    requires OccursAt(s, sub, i) && i <= p < i + |sub|
    ensures sub[p - i] == s[p]
  {
    assert s[i..i + |sub|][p - i] == s[p];
  }

  /** A string holding a character that `s` lacks does not occur in `s`. */
  lemma MissingChar(sub: string, s: string, c: char)
    requires c in sub && c !in s
    ensures !IsSubstring(sub, s)
  {
  }
}
