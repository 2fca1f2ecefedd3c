/**
 * Python's notion of whitespace (str.isspace, the `\s` class of `re` on str patterns) and the
 * idioms built on it everywhere in the scrapers: `re.sub(r'\s+', ' ', t)`, `t.strip()` and
 * `t.split()[0]`.
 */
module Whitespace {
  import opened Wrappers

  /** The characters for which Python's str.isspace() holds. */
  predicate IsSpace(c: char) {
    c == ' ' || '\t' <= c <= '\r' || '\U{1c}' <= c <= '\U{1f}' || c == '\U{85}' || c == '\U{a0}'
    || c == '\U{1680}' || '\U{2000}' <= c <= '\U{200a}' || c == '\U{2028}' || c == '\U{2029}'
    || c == '\U{202f}' || c == '\U{205f}' || c == '\U{3000}'
  }

  /** The non-whitespace characters of s, in order: what whitespace normalisation must keep. */
  function NonSpace(s: string): string {
    if s == [] then []
    else if IsSpace(s[0]) then NonSpace(s[1..])
    else [s[0]] + NonSpace(s[1..])
  }

  lemma {:induction false} NonSpaceAppend(a: string, b: string)
    ensures NonSpace(a + b) == NonSpace(a) + NonSpace(b)
  {
    if a == [] {
      assert a + b == b;
    } else {
      assert (a + b)[0] == a[0];
      assert (a + b)[1..] == a[1..] + b;
      NonSpaceAppend(a[1..], b);
    }
  }

  lemma {:induction false} NonSpaceMember(s: string, c: char)
    ensures c in NonSpace(s) <==> c in s && !IsSpace(c)
  {
    if s != [] {
      NonSpaceMember(s[1..], c);
      assert s == [s[0]] + s[1..];
    }
  }

  /** A string whose characters are all whitespace has no non-whitespace characters. */
  lemma {:induction false} NonSpaceOfBlank(s: string)
    requires forall i :: 0 <= i < |s| ==> IsSpace(s[i])
    ensures NonSpace(s) == []
  {
    if s != [] {
      NonSpaceOfBlank(s[1..]);
    }
  }

  /** Drops the leading whitespace: `s.lstrip()`. */
  function StripLeft(s: string): (r: string)
    ensures |r| <= |s|
  {
    if s != [] && IsSpace(s[0]) then StripLeft(s[1..]) else s
  }

  /** `s.lstrip()` is a suffix of s, what it drops is whitespace, and it starts with a visible character. */
  lemma {:induction false} StripLeftShape(s: string)
    ensures var r := StripLeft(s);
      && r == s[|s| - |r|..]
      && (forall i :: 0 <= i < |s| - |r| ==> IsSpace(s[i]))
      && (r != [] ==> !IsSpace(r[0]))
  {
    if s != [] && IsSpace(s[0]) {
      StripLeftShape(s[1..]);
    }
  }

  /** Drops the trailing whitespace: `s.rstrip()`. */
  function StripRight(s: string): (r: string)
    ensures |r| <= |s| && r == s[..|r|]
    ensures forall i :: |r| <= i < |s| ==> IsSpace(s[i])
    ensures r != [] ==> !IsSpace(r[|r| - 1])
  {
    if s != [] && IsSpace(s[|s| - 1]) then StripRight(s[..|s| - 1]) else s
  }

  /** `s.strip()`. */
  function Strip(s: string): string {
    StripRight(StripLeft(s))
  }

  /** `re.sub(r'\s+', ' ', s)`: every maximal run of whitespace becomes one blank. */
  function Collapse(s: string): string
    decreases |s|
  {
    if s == [] then []
    else if IsSpace(s[0]) then " " + Collapse(StripLeft(s[1..]))
    else [s[0]] + Collapse(s[1..])
  }

  /** What `re.sub(r'\s+', ' ', s)` leaves: single blanks only, and whitespace in front exactly when s had it. */
  lemma {:induction false} CollapseShape(s: string)
    ensures Collapsed(Collapse(s))
    ensures s != [] ==> Collapse(s) != [] && (IsSpace(Collapse(s)[0]) <==> IsSpace(s[0]))
    decreases |s|
  {
    if s != [] && IsSpace(s[0]) {
      var t := StripLeft(s[1..]);
      StripLeftShape(s[1..]);
      CollapseShape(t);
      var c := Collapse(t);
      var r := " " + c;
      assert forall i :: 1 <= i < |r| ==> r[i] == c[i - 1];
    } else if s != [] {
      CollapseShape(s[1..]);
      var c := Collapse(s[1..]);
      var r := [s[0]] + c;
      assert forall i :: 1 <= i < |r| ==> r[i] == c[i - 1];
    }
  }

  /** Collapsing keeps every non-whitespace character, in order, and the leading one in place. */
  lemma {:induction false} CollapseKeeps(s: string)
    ensures NonSpace(Collapse(s)) == NonSpace(s)
    ensures s != [] && !IsSpace(s[0]) ==> Collapse(s)[0] == s[0]
    decreases |s|
  {
    if s != [] {
      if IsSpace(s[0]) {
        var rest := StripLeft(s[1..]);
        StripLeftShape(s[1..]);
        CollapseKeeps(rest);
        SpacesThenRest(s, |s| - |rest|);
        assert Collapse(s) == [' '] + Collapse(rest);
        NonSpaceCons(' ', Collapse(rest));
      } else {
        CollapseKeeps(s[1..]);
        assert Collapse(s) == [s[0]] + Collapse(s[1..]);
        NonSpaceCons(s[0], Collapse(s[1..]));
        NonSpaceCons(s[0], s[1..]);
        assert [s[0]] + s[1..] == s;
      }
    }
  }

  lemma NonSpaceCons(c: char, x: string)
    ensures NonSpace([c] + x) == if IsSpace(c) then NonSpace(x) else [c] + NonSpace(x)
  {
    assert ([c] + x)[1..] == x;
  }

  lemma SpacesThenRest(s: string, k: nat)
    requires 1 <= k <= |s| && forall i :: 0 <= i < k ==> IsSpace(s[i])
    ensures NonSpace(s) == NonSpace(s[k..])
    ensures k == |s| ==> IsSpace(s[|s| - 1])
  {
    assert s == s[..k] + s[k..];
    NonSpaceAppend(s[..k], s[k..]);
    NonSpaceOfBlank(s[..k]);
  }

  /** The shape `re.sub(r'\s+', ' ', t)` leaves: no whitespace but single blanks. */
  predicate Collapsed(s: string) {
    && (forall i :: 0 <= i < |s| && IsSpace(s[i]) ==> s[i] == ' ')
    && (forall i, j :: 0 <= i < j < |s| && j <= i + 1 ==> !(s[i] == ' ' && s[j] == ' '))
  }

  /** The shape `re.sub(r'\s+', ' ', t).strip()` leaves: no whitespace but single inner blanks. */
  predicate Normalized(s: string) {
    Collapsed(s) && (s != [] ==> !IsSpace(s[0]) && !IsSpace(s[|s| - 1]))
  }

  /** `re.sub(r'\s+', ' ', s).strip()`. */
  function Normalize(s: string): (r: string)
    ensures Normalized(r)
    ensures NonSpace(r) == NonSpace(s)
  {
    var c := Collapse(s);
    CollapseShape(s);
    StripCollapsed(c);
    CollapseKeeps(s);
    StripKeepsNonSpace(c);
    Strip(c)
  }

  /** Stripping a collapsed string leaves it normalised. */
  lemma StripCollapsed(c: string)
    requires Collapsed(c)
    ensures Normalized(Strip(c))
  {
    var l := StripLeft(c);
    StripLeftShape(c);
    var r := StripRight(l);
    assert Strip(c) == r;
    CollapsedStripLeft(c);
    CollapsedStripRight(l);
    StripEnds(l);
  }

  /** The ends of a right-stripped, left-stripped string are not whitespace. */
  lemma StripEnds(l: string)
    requires l != [] ==> !IsSpace(l[0])
    ensures var r := StripRight(l); r != [] ==> !IsSpace(r[0]) && !IsSpace(r[|r| - 1])
  {
    var r := StripRight(l);
    if r != [] {
      assert r[0] == l[0];
    }
  }

  lemma CollapsedStripLeft(c: string)
    requires Collapsed(c)
    ensures Collapsed(StripLeft(c))
  {
    var l := StripLeft(c);
    StripLeftShape(c);
    CollapsedSlice(c, |c| - |l|, |c|);
    assert c[|c| - |l|..|c|] == l;
  }

  lemma CollapsedStripRight(l: string)
    requires Collapsed(l)
    ensures Collapsed(StripRight(l))
  {
    var r := StripRight(l);
    CollapsedSlice(l, 0, |r|);
    assert l[0..|r|] == r;
  }

  /** Any slice of a collapsed string is collapsed too. */
  lemma CollapsedSlice(c: string, lo: nat, hi: nat)
    requires lo <= hi <= |c| && Collapsed(c)
    ensures Collapsed(c[lo..hi])
  {
    var r := c[lo..hi];
    forall i | 0 <= i < |r|
      ensures r[i] == c[lo + i]
    {
    }
  }

  lemma StripKeepsNonSpace(s: string)
    ensures NonSpace(Strip(s)) == NonSpace(s)
  {
    StripLeftKeeps(s);
    StripRightKeeps(StripLeft(s));
  }

  lemma StripLeftKeeps(s: string)
    ensures NonSpace(StripLeft(s)) == NonSpace(s)
  {
    var l := StripLeft(s);
    StripLeftShape(s);
    var p := s[..|s| - |l|];
    assert forall i :: 0 <= i < |p| ==> IsSpace(p[i]);
    NonSpaceOfBlank(p);
    assert s == p + l;
    NonSpaceAppend(p, l);
    assert NonSpace(p) + NonSpace(l) == NonSpace(l);
  }

  lemma StripRightKeeps(s: string)
    ensures NonSpace(StripRight(s)) == NonSpace(s)
  {
    var r := StripRight(s);
    assert s == r + s[|r|..];
    NonSpaceAppend(r, s[|r|..]);
    NonSpaceOfBlank(s[|r|..]);
  }

  /** Every character of a normalised string is a blank or a non-whitespace character of the input. */
  lemma NormalizeDrawsFrom(s: string, i: nat)
    requires i < |Normalize(s)|
    ensures Normalize(s)[i] == ' ' || (Normalize(s)[i] in s && !IsSpace(Normalize(s)[i]))
  {
    var r := Normalize(s);
    if !IsSpace(r[i]) {
      NonSpaceMember(r, r[i]);
      NonSpaceMember(s, r[i]);
    }
  }

  /** Normalising is idempotent: a normalised string is its own normal form. */
  lemma {:induction false} NormalizeFixes(s: string)
    requires Normalized(s)
    ensures Normalize(s) == s
  {
    CollapseFixes(s);
  }

  lemma {:induction false} CollapseFixes(s: string)
    requires Collapsed(s)
    ensures Collapse(s) == s
  {
    if s != [] {
      CollapsedSlice(s, 1, |s|);
      assert s[1..|s|] == s[1..];
      CollapseFixes(s[1..]);
      if IsSpace(s[0]) {
        assert s[1..] == [] || !IsSpace(s[1]);
        assert StripLeft(s[1..]) == s[1..];
      }
    }
  }

  /** The leading run of non-whitespace characters. */
  function TakeWord(s: string): (w: string)
    ensures |w| <= |s| && w == s[..|w|]
    ensures forall i :: 0 <= i < |w| ==> !IsSpace(w[i])
    ensures |w| < |s| ==> IsSpace(s[|w|])
    ensures s != [] && !IsSpace(s[0]) ==> w != []
  {
    if s == [] || IsSpace(s[0]) then [] else [s[0]] + TakeWord(s[1..])
  }

  /** `s.split()[0]`: the first whitespace-separated token; None where Python raises IndexError. */
  function FirstToken(s: string): (r: Option<string>)
    ensures r.None? <==> forall i :: 0 <= i < |s| ==> IsSpace(s[i])
    ensures r.Some? ==> r.value != [] && forall i :: 0 <= i < |r.value| ==> !IsSpace(r.value[i])
  {
    var t := StripLeft(s);
    StripLeftShape(s);
    if t == [] then None else Some(TakeWord(t))
  }

  /** A string with no whitespace in it is its own first token. */
  lemma FirstTokenOfWord(s: string)
    requires s != [] && forall i :: 0 <= i < |s| ==> !IsSpace(s[i])
    ensures FirstToken(s) == Some(s)
  {
    assert StripLeft(s) == s;
    WordWhole(s);
  }

  lemma {:induction false} WordWhole(s: string)
    requires forall i :: 0 <= i < |s| ==> !IsSpace(s[i])
    ensures TakeWord(s) == s
  {
    if s != [] {
      WordWhole(s[1..]);
    }
  }

  /** The first token of a word followed by whitespace (and anything after it) is that word. */
  lemma FirstTokenBeforeSpace(w: string, rest: string)
    requires w != [] && forall i :: 0 <= i < |w| ==> !IsSpace(w[i])
    requires rest == [] || IsSpace(rest[0])
    ensures FirstToken(w + rest) == Some(w)
  {
    assert (w + rest)[0] == w[0];
    assert StripLeft(w + rest) == w + rest;
    TakeWordBeforeSpace(w, rest);
  }

  lemma {:induction false} TakeWordBeforeSpace(w: string, rest: string)
    requires forall i :: 0 <= i < |w| ==> !IsSpace(w[i])
    requires rest == [] || IsSpace(rest[0])
    ensures TakeWord(w + rest) == w
  {
    if w == [] {
      assert w + rest == rest;
    } else {
      TakeWordBeforeSpace(w[1..], rest);
      assert (w + rest)[1..] == w[1..] + rest;
    }
  }

  /** A word of `s.split()`: a non-empty string with no whitespace in it. */
  predicate Word(w: string) {
    w != [] && forall i :: 0 <= i < |w| ==> !IsSpace(w[i])
  }

  /**
   * `s.split()`: the maximal runs of non-whitespace characters, in order. Read from the front,
   * whitespace adds nothing, and a visible character either starts a word of its own (before
   * whitespace or the end) or joins the first word after it.
   */
  function Words(s: string): seq<string>
  {
    if s == [] then []
    else
      var ws := Words(s[1..]);
      if IsSpace(s[0]) then ws
      else if |s| > 1 && !IsSpace(s[1]) && ws != [] then [[s[0]] + ws[0]] + ws[1..]
      else [[s[0]]] + ws
  }

  /** `" ".join(words)` */
  function Join(words: seq<string>): string {
    if words == [] then "" else if |words| == 1 then words[0] else words[0] + " " + Join(words[1..])
  }

  /** A string has no words exactly when it is all whitespace; every word is a Word. */
  lemma {:induction false} WordsShape(s: string)
    ensures Words(s) == [] <==> forall i :: 0 <= i < |s| ==> IsSpace(s[i])
    ensures forall k :: 0 <= k < |Words(s)| ==> Word(Words(s)[k])
  {
    if s != [] {
      WordsShape(s[1..]);
      var ws := Words(s[1..]);
      if |s| > 1 && !IsSpace(s[1]) {
        assert ws != [];
      }
      if !IsSpace(s[0]) && |s| > 1 && !IsSpace(s[1]) {
        var h := [s[0]] + ws[0];
        forall i | 0 <= i < |h|
          ensures !IsSpace(h[i])
        {
          if i > 0 {
            assert h[i] == ws[0][i - 1];
          }
        }
      }
    }
  }

  /** Leading whitespace adds no word. */
  lemma {:induction false} WordsAfterSpaces(sp: string, y: string)
    requires forall i :: 0 <= i < |sp| ==> IsSpace(sp[i])
    ensures Words(sp + y) == Words(y)
  {
    if sp != [] {
      WordsAfterSpaces(sp[1..], y);
      assert (sp + y)[0] == sp[0] && (sp + y)[1..] == sp[1..] + y;
    } else {
      assert sp + y == y;
    }
  }

  /** Whether s begins with a visible character, so that a visible character put in front joins its first word. */
  predicate StartsVisible(s: string) {
    s != [] && !IsSpace(s[0])
  }

  /** The words after a visible character depend only on the words that follow and on whether one begins at once. */
  lemma WordsCons(c: char, a: string, b: string)
    requires !IsSpace(c) && Words(a) == Words(b) && (StartsVisible(a) <==> StartsVisible(b))
    ensures Words([c] + a) == Words([c] + b)
  {
    WordsShape(a);
    WordsShape(b);
    assert ([c] + a)[0] == c && ([c] + a)[1..] == a;
    assert ([c] + b)[0] == c && ([c] + b)[1..] == b;
  }

  /** Strings that agree on which characters are whitespace, and on the others, have the same words. */
  lemma {:induction false} WordsPointwise(a: string, b: string)
    requires |a| == |b|
    requires forall i :: 0 <= i < |a| ==> (IsSpace(a[i]) <==> IsSpace(b[i])) && (!IsSpace(a[i]) ==> a[i] == b[i])
    ensures Words(a) == Words(b)
  {
    if a != [] {
      WordsPointwise(a[1..], b[1..]);
    }
  }

  /** Words joined by blanks: empty only for no words, and neither end is whitespace. */
  lemma {:induction false} JoinEnds(words: seq<string>)
    requires forall k :: 0 <= k < |words| ==> Word(words[k])
    ensures Join(words) == [] <==> words == []
    ensures words != [] ==> !IsSpace(Join(words)[0]) && !IsSpace(Join(words)[|Join(words)| - 1])
  {
    if |words| > 1 {
      JoinEnds(words[1..]);
      assert Join(words) == words[0] + (" " + Join(words[1..]));
    }
  }

  lemma {:induction false} StripLeftSpaces(a: string, b: string)
    requires forall i :: 0 <= i < |a| ==> IsSpace(a[i])
    requires b == [] || !IsSpace(b[0])
    ensures StripLeft(a + b) == b
  {
    if a == [] {
      assert a + b == b;
    } else {
      StripLeftSpaces(a[1..], b);
      assert (a + b)[1..] == a[1..] + b;
    }
  }

  lemma {:induction false} StripRightSpaces(a: string, b: string)
    requires forall i :: 0 <= i < |b| ==> IsSpace(b[i])
    requires a == [] || !IsSpace(a[|a| - 1])
    ensures StripRight(a + b) == a
  {
    if b == [] {
      assert a + b == a;
    } else {
      StripRightSpaces(a, b[..|b| - 1]);
      assert (a + b)[..|a + b| - 1] == a + b[..|b| - 1];
    }
  }

  /** Stripping whitespace padding from text whose ends are visible gives the text back. */
  lemma StripPadded(lead: string, j: string, trail: string)
    requires forall i :: 0 <= i < |lead| ==> IsSpace(lead[i])
    requires forall i :: 0 <= i < |trail| ==> IsSpace(trail[i])
    requires j == [] || (!IsSpace(j[0]) && !IsSpace(j[|j| - 1]))
    ensures Strip(lead + j + trail) == j
  {
    if j == [] {
      assert lead + j + trail == (lead + trail) + [];
      StripLeftSpaces(lead + trail, []);
    } else {
      assert lead + j + trail == lead + (j + trail);
      StripLeftSpaces(lead, j + trail);
      StripRightSpaces(j, trail);
    }
  }

  /** The blank `re.sub(r'\s+', ' ', s)` leaves in front: one when s begins with whitespace. */
  function Lead(s: string): string {
    if s != [] && IsSpace(s[0]) then " " else ""
  }

  /** The blank `re.sub(r'\s+', ' ', s)` leaves behind: one when s ends with whitespace after a word. */
  function Trail(s: string): string {
    if Words(s) != [] && IsSpace(s[|s| - 1]) then " " else ""
  }

  /**
   * `re.sub(r'\s+', ' ', s)` is the words of s joined by single blanks, with one blank in front
   * when s begins with whitespace and one behind when it ends with whitespace after a word.
   */
  lemma {:induction false} CollapseWords(s: string)
    ensures Collapse(s) == Lead(s) + Join(Words(s)) + Trail(s)
    decreases |s|
  {
    if s == [] {
    } else if IsSpace(s[0]) {
      var t := StripLeft(s[1..]);
      CollapseWords(t);
      CollapseSpaceStep(s, t);
    } else {
      CollapseWords(s[1..]);
      CollapseStep(s);
    }
  }

  /** The step of CollapseWords at whitespace: the run is skipped and adds no word. */
  lemma CollapseSpaceStep(s: string, t: string)
    requires s != [] && IsSpace(s[0]) && t == StripLeft(s[1..])
    requires Collapse(t) == Lead(t) + Join(Words(t)) + Trail(t)
    ensures Collapse(s) == Lead(s) + Join(Words(s)) + Trail(s)
  {
    SpaceRun(s, t);
    assert Collapse(s) == " " + Collapse(t);
    Regroup(" ", Join(Words(t)), Trail(t));
  }

  /** A run of whitespace at the front changes neither the words nor the trailing blank. */
  lemma SpaceRun(s: string, t: string)
    requires s != [] && IsSpace(s[0]) && t == StripLeft(s[1..])
    ensures Words(s) == Words(t) && Trail(s) == Trail(t) && Lead(t) == ""
  {
    SpaceRunWords(s, t);
    StripLeftShape(s[1..]);
    if t != [] {
      assert s[|s| - 1] == t[|t| - 1];
    }
  }

  lemma SpaceRunWords(s: string, t: string)
    requires s != [] && IsSpace(s[0]) && t == StripLeft(s[1..])
    ensures Words(s) == Words(t)
  {
    var y := s[1..];
    StripLeftShape(y);
    var sp := y[..|y| - |t|];
    assert y == sp + t;
    WordsAfterSpaces(sp, t);
  }

  /** The step of CollapseWords at a visible first character. */
  lemma CollapseStep(s: string)
    requires s != [] && !IsSpace(s[0])
    requires Collapse(s[1..]) == Lead(s[1..]) + Join(Words(s[1..])) + Trail(s[1..])
    ensures Collapse(s) == Lead(s) + Join(Words(s)) + Trail(s)
  {
    if |s| == 1 {
      assert Words(s) == [[s[0]]];
    } else if IsSpace(s[1]) {
      WordEndsStep(s);
    } else {
      WordGoesOnStep(s);
    }
  }

  /** A visible character before whitespace ends a word of its own. */
  lemma WordEndsStep(s: string)
    requires |s| > 1 && !IsSpace(s[0]) && IsSpace(s[1])
    requires Collapse(s[1..]) == Lead(s[1..]) + Join(Words(s[1..])) + Trail(s[1..])
    ensures Collapse(s) == Lead(s) + Join(Words(s)) + Trail(s)
  {
    if Words(s[1..]) == [] {
      LastWordStep(s);
    } else {
      InnerWordStep(s);
    }
  }

  lemma LastWordStep(s: string)
    requires |s| > 1 && !IsSpace(s[0]) && IsSpace(s[1]) && Words(s[1..]) == []
    requires Collapse(s[1..]) == Lead(s[1..]) + Join(Words(s[1..])) + Trail(s[1..])
    ensures Collapse(s) == Lead(s) + Join(Words(s)) + Trail(s)
  {
    var c, y := s[0], s[1..];
    WordsShape(y);
    assert IsSpace(s[|s| - 1]);
    assert Collapse(y) == " ";
    assert Collapse(s) == [c] + Collapse(y);
    assert Words(s) == [[c]];
    assert Join(Words(s)) == [c];
  }

  lemma InnerWordStep(s: string)
    requires |s| > 1 && !IsSpace(s[0]) && IsSpace(s[1]) && Words(s[1..]) != []
    requires Collapse(s[1..]) == Lead(s[1..]) + Join(Words(s[1..])) + Trail(s[1..])
    ensures Collapse(s) == Lead(s) + Join(Words(s)) + Trail(s)
  {
    var c, y := s[0], s[1..];
    var ws := Words(y);
    assert Collapse(s) == [c] + Collapse(y);
    assert Words(s) == [[c]] + ws;
    assert s[|s| - 1] == y[|y| - 1];
    assert Trail(y) == Trail(s);
    assert ([[c]] + ws)[1..] == ws;
    assert Join(Words(s)) == [c] + " " + Join(ws);
    calc {
      Collapse(s);
      [c] + (" " + Join(ws) + Trail(y));
      { Regroup([c], " " + Join(ws), Trail(y)); Regroup([c], " ", Join(ws)); }
      [c] + " " + Join(ws) + Trail(s);
    }
  }

  /** A visible character before another one joins the first word after it. */
  lemma WordGoesOnStep(s: string)
    requires |s| > 1 && !IsSpace(s[0]) && !IsSpace(s[1])
    requires Collapse(s[1..]) == Lead(s[1..]) + Join(Words(s[1..])) + Trail(s[1..])
    ensures Collapse(s) == Lead(s) + Join(Words(s)) + Trail(s)
  {
    var y := s[1..];
    GoesOnWords(s);
    GoesOnJoin(s);
    NoLead(Lead(y), Join(Words(y)) + Trail(y));
    NoLead(Lead(s), Join(Words(s)) + Trail(s));
    Regroup(Lead(y), Join(Words(y)), Trail(y));
    Regroup(Lead(s), Join(Words(s)), Trail(s));
  }

  /** Dropping an empty blank in front. */
  lemma NoLead(a: string, b: string)
    requires a == ""
    ensures a + b == b
  {
  }

  /** Joined words and trailing blank of s are s[0] followed by those of s[1..]. */
  lemma GoesOnJoin(s: string)
    requires |s| > 1 && !IsSpace(s[0]) && !IsSpace(s[1])
    ensures Join(Words(s)) + Trail(s) == [s[0]] + (Join(Words(s[1..])) + Trail(s[1..]))
  {
    GoesOnWords(s);
    JoinHead(s[0], Words(s[1..]));
    Regroup([s[0]], Join(Words(s[1..])), Trail(s[1..]));
  }

  /** The words and the trailing blank when a visible character is followed by another. */
  lemma GoesOnWords(s: string)
    requires |s| > 1 && !IsSpace(s[0]) && !IsSpace(s[1])
    ensures Words(s[1..]) != [] && Lead(s[1..]) == ""
    ensures Words(s) == [[s[0]] + Words(s[1..])[0]] + Words(s[1..])[1..]
    ensures Trail(s[1..]) == Trail(s)
  {
    WordsShape(s[1..]);
    assert s[|s| - 1] == s[1..][|s| - 2];
  }

  /** Concatenation of sequences is associative. */
  lemma Regroup<T>(a: seq<T>, b: seq<T>, c: seq<T>)
    ensures a + (b + c) == a + b + c
  {
  }

  /** Putting a character in front of the first word puts it in front of the joined text. */
  lemma JoinHead(c: char, ws: seq<string>)
    requires ws != []
    ensures Join([[c] + ws[0]] + ws[1..]) == [c] + Join(ws)
  {
    var vs := [[c] + ws[0]] + ws[1..];
    assert vs[1..] == ws[1..];
  }

  /** `re.sub(r'\s+', ' ', s).strip()` is `" ".join(s.split())`. */
  lemma NormalizeWords(s: string)
    ensures Normalize(s) == Join(Words(s))
  {
    CollapseWords(s);
    WordsShape(s);
    JoinEnds(Words(s));
    StripPadded(Lead(s), Join(Words(s)), Trail(s));
  }
}
