/** The java.lang.String operations the coreference rules rely on, over ASCII:
    toLowerCase/toUpperCase, contains, split(" ") and the space-joined gloss
    of a token list. */
module JavaString {

  function LowerChar(c: char): char {
    if 'A' <= c <= 'Z' then (c as int + 32) as char else c
  }

  function UpperChar(c: char): char {
    if 'a' <= c <= 'z' then (c as int - 32) as char else c
  }

  predicate IsUpperLetter(c: char) {
    'A' <= c <= 'Z'
  }

  /** String.toLowerCase(), restricted to the ASCII letters. */
  function Lower(s: string): (r: string)
    ensures |r| == |s|
    ensures forall i :: 0 <= i < |s| ==> r[i] == LowerChar(s[i])
  {
    seq(|s|, i requires 0 <= i < |s| => LowerChar(s[i]))
  }

  /** A lowercased string has no upper-case letter left in it. */
  lemma LowerHasNoUpper(s: string)
    ensures forall i :: 0 <= i < |s| ==> !IsUpperLetter(Lower(s)[i])
  {
  }

  lemma LowerIdempotent(s: string)
    ensures Lower(Lower(s)) == Lower(s)
  {
    assert forall i :: 0 <= i < |s| ==> LowerChar(LowerChar(s[i])) == LowerChar(s[i]);
  }

  /** `w` occurs in `s` starting at position `i`. */
  predicate OccursAt(s: string, w: string, i: int) {
    0 <= i && i + |w| <= |s| && s[i..i + |w|] == w
  }

  /** String.contains (and, equivalently, `indexOf(w) > -1`). */
  predicate Contains(s: string, w: string) {
    exists i :: 0 <= i <= |s| && OccursAt(s, w, i)
  }

  /** The pieces between the spaces of `s`, empty pieces included. */
  function Pieces(s: string): (r: seq<string>)
    ensures |r| >= 1
    ensures forall k :: 0 <= k < |r| ==> ' ' !in r[k]
  {
    if s == [] then [""]
    else if s[0] == ' ' then [""] + Pieces(s[1..])
    else
      var p := Pieces(s[1..]);
      [[s[0]] + p[0]] + p[1..]
  }

  function DropTrailingEmpty(ws: seq<string>): (r: seq<string>)
    ensures |r| <= |ws| && r == ws[..|r|]
    ensures r != [] ==> r[|r| - 1] != ""
    ensures forall k :: |r| <= k < |ws| ==> ws[k] == ""
  {
    if ws == [] then []
    else if ws[|ws| - 1] == "" then DropTrailingEmpty(ws[..|ws| - 1])
    else ws
  }

  /** String.split(" "): the pieces between single spaces, trailing empty
      pieces removed; the empty string splits into one empty word. */
  function Split(s: string): (r: seq<string>)
    ensures forall k :: 0 <= k < |r| ==> ' ' !in r[k]
  {
    if s == "" then [""] else DropTrailingEmpty(Pieces(s))
  }

  /** The words joined with single spaces, as a mention's gloss is. */
  function Join(ws: seq<string>): string {
    if ws == [] then ""
    else if |ws| == 1 then ws[0]
    else ws[0] + " " + Join(ws[1..])
  }

  /** The words glued together with no separator, as `s += word` builds them. */
  function Concat(ws: seq<string>): string {
    if ws == [] then "" else ws[0] + Concat(ws[1..])
  }

  /** Each word is non-empty and holds no space: the shape of a token. */
  predicate AreTokens(ws: seq<string>) {
    forall k :: 0 <= k < |ws| ==> ws[k] != "" && ' ' !in ws[k]
  }

  lemma {:induction false} PiecesOfWordThen(w: string, rest: string)
    requires ' ' !in w
    ensures Pieces(w + rest) == [w + Pieces(rest)[0]] + Pieces(rest)[1..]
    decreases |w|
  {
    if w != [] {
      var q := Pieces(rest);
      assert (w + rest)[0] == w[0] != ' ';
      assert (w + rest)[1..] == w[1..] + rest;
      PiecesOfWordThen(w[1..], rest);
      var p := Pieces(w[1..] + rest);
      assert p == [w[1..] + q[0]] + q[1..];
      assert Pieces(w + rest) == [[w[0]] + p[0]] + p[1..];
      assert [w[0]] + (w[1..] + q[0]) == w + q[0];
    } else {
      assert w + rest == rest;
      var q := Pieces(rest);
      assert w + q[0] == q[0];
      assert [q[0]] + q[1..] == q;
    }
  }

  lemma {:induction false} PiecesOfJoin(ws: seq<string>)
    requires ws != [] && AreTokens(ws)
    ensures Pieces(Join(ws)) == ws
    decreases |ws|
  {
    if |ws| == 1 {
      PiecesOfWordThen(ws[0], "");
      assert ws[0] + "" == ws[0];
    } else {
      var tail := Join(ws[1..]);
      assert Join(ws) == ws[0] + (" " + tail);
      PiecesOfWordThen(ws[0], " " + tail);
      assert (" " + tail)[1..] == tail;
      PiecesOfJoin(ws[1..]);
      assert Pieces(" " + tail) == [""] + ws[1..];
      assert ws[0] + "" == ws[0];
    }
  }

  /** Splitting a gloss gives back its tokens: split(" ") undoes the join. */
  lemma SplitJoin(ws: seq<string>)
    requires ws != [] && AreTokens(ws)
    ensures Split(Join(ws)) == ws
  {
    PiecesOfJoin(ws);
  }

  /** Inside an occurrence of `w`, `s` holds `w`'s characters. */
  lemma CharOfOccurrence(s: string, w: string, i: int, p: int)
    requires OccursAt(s, w, i)
    ensures i <= p < i + |w| ==> w[p - i] == s[p]
  {
    if i <= p < i + |w| {
      assert s[i..i + |w|][p - i] == s[p];
    }
  }

  /** A word without spaces that occurs in `a + b`, where `b` starts at a
      space, occurs in `a` or in `b`. */
  lemma ContainsBeforeSpace(a: string, b: string, w: string)
    requires ' ' !in w && w != ""
    requires b == "" || b[0] == ' '
    ensures Contains(a + b, w) <==> Contains(a, w) || Contains(b, w)
  {
    if Contains(a + b, w) {
      var i :| 0 <= i <= |a + b| && OccursAt(a + b, w, i);
      if i + |w| <= |a| {
        assert (a + b)[i..i + |w|] == a[i..i + |w|];
        assert OccursAt(a, w, i);
      } else if i >= |a| {
        assert (a + b)[i..i + |w|] == b[i - |a|..i - |a| + |w|];
        assert OccursAt(b, w, i - |a|);
      } else {
        CharOfOccurrence(a + b, w, i, |a|);
      }
    }
    if Contains(a, w) {
      var i :| 0 <= i <= |a| && OccursAt(a, w, i);
      assert (a + b)[i..i + |w|] == a[i..i + |w|];
      assert OccursAt(a + b, w, i);
    }
    if Contains(b, w) {
      var i :| 0 <= i <= |b| && OccursAt(b, w, i);
      assert (a + b)[|a| + i..|a| + i + |w|] == b[i..i + |w|];
      assert OccursAt(a + b, w, |a| + i);
    }
  }

  /** A leading space adds no occurrence of a word without spaces. */
  lemma ContainsAfterSpace(b: string, w: string)
    requires ' ' !in w && w != ""
    ensures Contains(" " + b, w) <==> Contains(b, w)
  {
    if Contains(" " + b, w) {
      var i :| 0 <= i <= |" " + b| && OccursAt(" " + b, w, i);
      CharOfOccurrence(" " + b, w, i, 0);
      assert (" " + b)[i..i + |w|] == b[i - 1..i - 1 + |w|];
      assert OccursAt(b, w, i - 1);
    }
    if Contains(b, w) {
      var i :| 0 <= i <= |b| && OccursAt(b, w, i);
      assert (" " + b)[i + 1..i + 1 + |w|] == b[i..i + |w|];
      assert OccursAt(" " + b, w, i + 1);
    }
  }

  /** A word without spaces occurs in words joined by spaces only inside one
      of them. */
  lemma {:induction false} ContainsInSpaced(gs: seq<string>, w: string)
    requires ' ' !in w && w != ""
    ensures Contains(Spaced(gs), w) <==> exists k :: 0 <= k < |gs| && Contains(gs[k], w)
    decreases |gs|
  {
    if gs == [] {
      assert !Contains("", w);
    } else {
      ContainsInSpaced(gs[1..], w);
      var rest := Spaced(gs[1..]);
      assert Spaced(gs) == " " + (gs[0] + rest);
      ContainsAfterSpace(gs[0] + rest, w);
      ContainsBeforeSpace(gs[0], rest, w);
      if exists k :: 0 <= k < |gs[1..]| && Contains(gs[1..][k], w) {
        var k :| 0 <= k < |gs[1..]| && Contains(gs[1..][k], w);
        assert gs[k + 1] == gs[1..][k];
      }
      if exists k :: 0 <= k < |gs| && Contains(gs[k], w) {
        var k :| 0 <= k < |gs| && Contains(gs[k], w);
        if k > 0 {
          assert gs[1..][k - 1] == gs[k];
        }
      }
    }
  }

  /** The string built by `s += " " + g` for each g in turn. */
  function Spaced(gs: seq<string>): string {
    if gs == [] then "" else " " + gs[0] + Spaced(gs[1..])
  }

  lemma SpacedSnoc(gs: seq<string>, g: string)
    ensures Spaced(gs + [g]) == Spaced(gs) + " " + g
  {
    if gs != [] {
      assert (gs + [g])[1..] == gs[1..] + [g];
      SpacedSnoc(gs[1..], g);
    } else {
      assert Spaced([g]) == " " + g + Spaced([]);
    }
  }
}
