/**
 * The text helpers of utils/utils.py used to prepare the corpus: `strip_accents`,
 * `regex_clean`, `remove_markers`, `clean_text` and `format_sentence`.
 *
 * Unicode normalisation and the URL, domain, handle, quote and marker regular expressions are
 * taken as opaque string maps passed in by the caller; the character-level passes that decide
 * the shape of the output are modelled exactly.
 */
module Utils {
  import opened Wrappers
  import opened Whitespace

  /** A Python argument that the helpers first test with isinstance(x, str). */
  datatype PyValue = Str(s: string) | NonStr

  /** DEFAULT_MARKERS: the editorial cues removed from article bodies. */
  const DefaultMarkers: seq<string> := [
    "VER MÁS", "LEA TAMBIÉN", "MIRA ESTO", "TAMBIÉN PUEDE LEER", "TE PUEDE INTERESAR",
    "VIDEO RECOMENDADO", "PUEDE LEER", "EN VIDEO", "VEA ESTO TAMBIÉN", "MIRE ESTO TAMBIÉN",
    "MIRA", "PUEDES VER", "LEA MÁS", "VER TAMBIÉN", "SIGUE LEYENDO", "MÁS INFORMACIÓN",
    "RELACIONADO", "PUEDE INTERESARTE", "NO TE PIERDAS", "VER VIDEO", "MIRA EL VIDEO",
    "VIDEO", "FOTO", "GALERÍA", "AMPLIAR FOTO"
  ]

  /**
   * `"".join(c for c in t if unicodedata.category(c) != "Mn")`: t without its combining marks;
   * `isMark` stands for the Unicode category test.
   */
  function Unmarked(t: string, isMark: char -> bool): (r: string)
    ensures |r| <= |t|
  {
    if t == [] then [] else (if isMark(t[0]) then [] else [t[0]]) + Unmarked(t[1..], isMark)
  }

  /** A character is left exactly when it occurs in the text and is not a mark. */
  lemma {:induction false} UnmarkedMember(t: string, isMark: char -> bool, c: char)
    ensures c in Unmarked(t, isMark) <==> c in t && !isMark(c)
  {
    if t != [] {
      UnmarkedMember(t[1..], isMark, c);
      assert t == [t[0]] + t[1..];
    }
  }

  /** Filtering keeps the order: the marks of each part are dropped where they stand. */
  lemma {:induction false} UnmarkedAppend(a: string, b: string, isMark: char -> bool)
    ensures Unmarked(a + b, isMark) == Unmarked(a, isMark) + Unmarked(b, isMark)
  {
    if a == [] {
      assert a + b == b;
    } else {
      UnmarkedAppend(a[1..], b, isMark);
      var x, y := Unmarked(a[1..], isMark), Unmarked(b, isMark);
      UnmarkedCons(a + b, a[0], a[1..] + b, isMark);
      UnmarkedCons(a, a[0], a[1..], isMark);
      Regroup(if isMark(a[0]) then [] else [a[0]], x, y);
    }
  }

  /** The filter on a text with a first character c and a rest t. */
  lemma UnmarkedCons(s: string, c: char, t: string, isMark: char -> bool)
    requires s == [c] + t
    ensures Unmarked(s, isMark) == (if isMark(c) then [] else [c]) + Unmarked(t, isMark)
  {
    assert s[0] == c && s[1..] == t;
  }

  /** A text without marks is kept as it is. */
  lemma {:induction false} UnmarkedFixes(t: string, isMark: char -> bool)
    requires forall i :: 0 <= i < |t| ==> !isMark(t[i])
    ensures Unmarked(t, isMark) == t
  {
    if t != [] {
      UnmarkedFixes(t[1..], isMark);
    }
  }

  /**
   * strip_accents: "" for anything but a str; otherwise the NFD decomposition (`nfd`, a
   * parameter) without its combining marks.
   */
  function StripAccents(v: PyValue, nfd: string -> string, isMark: char -> bool): string {
    match v
    case NonStr => ""
    case Str(s) => Unmarked(nfd(s), isMark)
  }

  /** strip_accents removes every mark and keeps every other character of the decomposition. */
  lemma StripAccentsKeeps(s: string, nfd: string -> string, isMark: char -> bool, c: char)
    ensures c in StripAccents(Str(s), nfd, isMark) <==> c in nfd(s) && !isMark(c)
    ensures StripAccents(NonStr, nfd, isMark) == ""
  {
    UnmarkedMember(nfd(s), isMark, c);
  }

  /** A text that NFD leaves alone and that has no marks (plain ASCII) comes back unchanged. */
  lemma StripAccentsFixes(s: string, nfd: string -> string, isMark: char -> bool)
    requires nfd(s) == s && forall i :: 0 <= i < |s| ==> !isMark(s[i])
    ensures StripAccents(Str(s), nfd, isMark) == s
  {
    UnmarkedFixes(s, isMark);
  }

  /** The capitals str.lower moves by 32: A-Z and the Latin-1 capitals \U{c0}..\U{de} other than \U{d7}. */
  predicate IsCapital(c: char) {
    'A' <= c <= 'Z' || ('\U{c0}' <= c <= '\U{de}' && c != '\U{d7}')
  }

  /** str.lower of one character, on ASCII and Latin-1: a capital moves to its small letter. */
  function LowerChar(c: char): (l: char)
    ensures !IsCapital(l)
    ensures IsCapital(c) ==> l as int == c as int + 32
    ensures !IsCapital(c) ==> l == c
  {
    if IsCapital(c) then (c as int + 32) as char else c
  }

  /** str.lower, on ASCII and Latin-1 letters. */
  function Lower(s: string): (r: string)
    ensures |r| == |s| && forall i :: 0 <= i < |s| ==> r[i] == LowerChar(s[i])
  {
    seq(|s|, i requires 0 <= i < |s| => LowerChar(s[i]))
  }

  predicate IsAsciiDigit(c: char) {
    '0' <= c <= '9'
  }

  /** Drops the leading run of ASCII digits. */
  function SkipDigits(s: string): (r: string)
    ensures |r| <= |s|
  {
    if s != [] && IsAsciiDigit(s[0]) then SkipDigits(s[1..]) else s
  }

  /** What SkipDigits drops is a run of digits, and what it leaves starts with a non-digit. */
  lemma {:induction false} SkipDigitsShape(s: string)
    ensures var r := SkipDigits(s);
      && r == s[|s| - |r|..]
      && (forall i :: 0 <= i < |s| - |r| ==> IsAsciiDigit(s[i]))
      && (r != [] ==> !IsAsciiDigit(r[0]))
  {
    if s != [] && IsAsciiDigit(s[0]) {
      SkipDigitsShape(s[1..]);
    }
  }

  /** `re.sub(r'\d+', ' ', s)`: each maximal run of digits becomes one blank. */
  function DigitRuns(s: string): string
    decreases |s|
  {
    if s == [] then []
    else if IsAsciiDigit(s[0]) then " " + DigitRuns(SkipDigits(s[1..]))
    else [s[0]] + DigitRuns(s[1..])
  }

  /** No digit is left. */
  lemma {:induction false} DigitRunsNoDigit(s: string)
    ensures forall i :: 0 <= i < |DigitRuns(s)| ==> !IsAsciiDigit(DigitRuns(s)[i])
    decreases |s|
  {
    if s != [] {
      var t := if IsAsciiDigit(s[0]) then SkipDigits(s[1..]) else s[1..];
      DigitRunsNoDigit(t);
      var r := DigitRuns(s);
      assert r[1..] == DigitRuns(t);
      forall i | 1 <= i < |r|
        ensures r[i] == DigitRuns(t)[i - 1]
      {
      }
    }
  }

  /** A text without digits is kept as it is. */
  lemma {:induction false} DigitRunsFixes(s: string)
    requires forall i :: 0 <= i < |s| ==> !IsAsciiDigit(s[i])
    ensures DigitRuns(s) == s
  {
    if s != [] {
      DigitRunsFixes(s[1..]);
    }
  }

  /** A whole run of digits becomes a single blank in front of the rest. */
  lemma DigitRunsOfRun(d: string, b: string)
    requires d != [] && forall i :: 0 <= i < |d| ==> IsAsciiDigit(d[i])
    requires b == [] || !IsAsciiDigit(b[0])
    ensures DigitRuns(d + b) == " " + DigitRuns(b)
  {
    assert (d + b)[0] == d[0] && (d + b)[1..] == d[1..] + b;
    SkipDigitsRun(d[1..], b);
  }

  lemma {:induction false} SkipDigitsRun(d: string, b: string)
    requires forall i :: 0 <= i < |d| ==> IsAsciiDigit(d[i])
    requires b == [] || !IsAsciiDigit(b[0])
    ensures SkipDigits(d + b) == b
  {
    if d == [] {
      assert d + b == b;
    } else {
      assert (d + b)[0] == d[0] && (d + b)[1..] == d[1..] + b;
      SkipDigitsRun(d[1..], b);
    }
  }

  /** A non-digit in front is copied as it is. */
  lemma DigitRunsCons(c: char, u: string)
    requires !IsAsciiDigit(c)
    ensures DigitRuns([c] + u) == [c] + DigitRuns(u)
  {
    assert ([c] + u)[0] == c && ([c] + u)[1..] == u;
  }

  /** Only lower-case ASCII letters and blanks. */
  predicate LettersAndBlanks(s: string) {
    forall i :: 0 <= i < |s| ==> 'a' <= s[i] <= 'z' || s[i] == ' '
  }

  /** `re.sub(r'[^a-z\s]', ' ', s)`: every character that is neither a-z nor whitespace becomes a blank. */
  function MaskNonLetters(s: string): (r: string)
    ensures |r| == |s|
    ensures forall i :: 0 <= i < |r| ==> 'a' <= r[i] <= 'z' || IsSpace(r[i])
    ensures forall i :: 0 <= i < |r| && ('a' <= s[i] <= 'z' || IsSpace(s[i])) ==> r[i] == s[i]
    ensures forall i :: 0 <= i < |r| && !('a' <= s[i] <= 'z') && !IsSpace(s[i]) ==> r[i] == ' '
  {
    seq(|s|, i requires 0 <= i < |s| => if 'a' <= s[i] <= 'z' || IsSpace(s[i]) then s[i] else ' ')
  }

  /** Normalising a string of letters and whitespace leaves letters and single inner blanks only. */
  lemma NormalizeLetters(s: string)
    requires forall i :: 0 <= i < |s| ==> 'a' <= s[i] <= 'z' || IsSpace(s[i])
    ensures LettersAndBlanks(Normalize(s))
  {
    var r := Normalize(s);
    forall i | 0 <= i < |r|
      ensures 'a' <= r[i] <= 'z' || r[i] == ' '
    {
      NormalizeDrawsFrom(s, i);
    }
  }

  function BlankChar(c: char): char {
    if 'a' <= c <= 'z' then c else ' '
  }

  /** s with every character outside a-z as a blank: its words are the runs of a-z letters of s. */
  function Blank(s: string): (r: string)
    ensures |r| == |s| && forall i :: 0 <= i < |s| ==> r[i] == BlankChar(s[i])
  {
    seq(|s|, i requires 0 <= i < |s| => BlankChar(s[i]))
  }

  /** The a-z letters of s, in order. */
  function Letters(s: string): string {
    if s == [] then [] else (if 'a' <= s[0] <= 'z' then [s[0]] else []) + Letters(s[1..])
  }

  lemma BlankCons(c: char, s: string)
    ensures Blank([c] + s) == [BlankChar(c)] + Blank(s)
  {
    assert forall i :: 1 <= i <= |s| ==> ([c] + s)[i] == s[i - 1];
  }

  lemma BlankAppend(a: string, b: string)
    ensures Blank(a + b) == Blank(a) + Blank(b)
  {
    assert forall i :: |a| <= i < |a| + |b| ==> (a + b)[i] == b[i - |a|];
  }

  /** Masking the non-letters leaves the same words as blanking everything outside a-z. */
  lemma MaskWords(y: string)
    ensures Words(MaskNonLetters(y)) == Words(Blank(y))
  {
    WordsPointwise(MaskNonLetters(y), Blank(y));
  }

  /**
   * Turning each run of digits into one blank changes no word of the a-z runs, nor whether the
   * text begins with a letter.
   */
  lemma {:induction false} DigitRunsWords(x: string)
    ensures Words(Blank(DigitRuns(x))) == Words(Blank(x))
    ensures StartsVisible(Blank(DigitRuns(x))) <==> StartsVisible(Blank(x))
    decreases |x|
  {
    if x == [] {
    } else if IsAsciiDigit(x[0]) {
      var t := SkipDigits(x[1..]);
      SkipDigitsShape(x[1..]);
      DigitRunsWords(t);
      var d := x[..|x| - |t|];
      assert x == d + t;
      BlankAppend(d, t);
      WordsAfterSpaces(Blank(d), Blank(t));
      BlankCons(' ', DigitRuns(t));
      assert " " + DigitRuns(t) == [' '] + DigitRuns(t);
      var z := Blank(DigitRuns(t));
      assert ([' '] + z)[0] == ' ' && ([' '] + z)[1..] == z;
    } else {
      var y := x[1..];
      DigitRunsWords(y);
      assert x == [x[0]] + y;
      BlankCons(x[0], DigitRuns(y));
      BlankCons(x[0], y);
      var c := BlankChar(x[0]);
      if IsSpace(c) {
        assert ([c] + Blank(y))[1..] == Blank(y);
        assert ([c] + Blank(DigitRuns(y)))[1..] == Blank(DigitRuns(y));
      } else {
        WordsCons(c, Blank(DigitRuns(y)), Blank(y));
      }
    }
  }

  /** The non-space characters of the blanked text are its a-z letters. */
  lemma {:induction false} BlankLetters(s: string)
    ensures NonSpace(Blank(s)) == Letters(s)
  {
    if s != [] {
      BlankLetters(s[1..]);
      assert s == [s[0]] + s[1..];
      BlankCons(s[0], s[1..]);
      NonSpaceCons(BlankChar(s[0]), Blank(s[1..]));
    }
  }

  /**
   * The text regex_clean works on after its opaque passes: lower-cased, accents stripped, then
   * the URL, domain, handle and quote substitutions (`subs`, a parameter).
   */
  function Prepared(s: string, nfd: string -> string, isMark: char -> bool, subs: string -> string): string {
    subs(StripAccents(Str(Lower(s)), nfd, isMark))
  }

  /**
   * regex_clean: "" for anything but a str; otherwise the prepared text, then digits, then every
   * character outside a-z and whitespace to a blank, then whitespace normalised.
   */
  function RegexClean(v: PyValue, nfd: string -> string, isMark: char -> bool, subs: string -> string): (r: string)
    ensures v.NonStr? ==> r == ""
    ensures LettersAndBlanks(r) && Normalized(r)
  {
    match v
    case NonStr => ""
    case Str(s) =>
      var m := MaskNonLetters(DigitRuns(Prepared(s, nfd, isMark, subs)));
      NormalizeLetters(m);
      Normalize(m)
  }

  /**
   * What regex_clean returns for a str: the maximal runs of a-z letters of the prepared text,
   * in order, joined by single blanks. Digits, punctuation and whitespace all only separate words.
   */
  lemma RegexCleanWords(s: string, nfd: string -> string, isMark: char -> bool, subs: string -> string)
    ensures RegexClean(Str(s), nfd, isMark, subs) == Join(Words(Blank(Prepared(s, nfd, isMark, subs))))
  {
    var x := Prepared(s, nfd, isMark, subs);
    var m := MaskNonLetters(DigitRuns(x));
    NormalizeWords(m);
    MaskWords(DigitRuns(x));
    DigitRunsWords(x);
  }

  /** regex_clean keeps every a-z letter of the prepared text, in order, and no other visible character. */
  lemma RegexCleanLetters(s: string, nfd: string -> string, isMark: char -> bool, subs: string -> string)
    ensures NonSpace(RegexClean(Str(s), nfd, isMark, subs)) == Letters(Prepared(s, nfd, isMark, subs))
  {
    var x := Prepared(s, nfd, isMark, subs);
    RegexCleanWords(s, nfd, isMark, subs);
    NormalizeWords(Blank(x));
    BlankLetters(x);
  }

  /**
   * Lower-casing comes before any substitution: a word in capitals that the opaque passes leave
   * alone comes out as the same word in lower case instead of being blanked by `[^a-z\s]`.
   */
  lemma RegexCleanLowersWord(s: string, nfd: string -> string, isMark: char -> bool, subs: string -> string)
    requires s != [] && forall i :: 0 <= i < |s| ==> 'A' <= s[i] <= 'Z' || 'a' <= s[i] <= 'z'
    requires nfd(Lower(s)) == Lower(s) && subs(Lower(s)) == Lower(s)
    requires forall i :: 0 <= i < |s| ==> !isMark(Lower(s)[i])
    ensures RegexClean(Str(s), nfd, isMark, subs) == Lower(s)
  {
    var l := Lower(s);
    StripAccentsFixes(l, nfd, isMark);
    assert forall i :: 0 <= i < |l| ==> 'a' <= l[i] <= 'z';
    LowerWordPasses(l);
  }

  /** Lower-casing twice is lower-casing once. */
  lemma LowerIdempotent(s: string)
    ensures Lower(Lower(s)) == Lower(s)
  {
  }

  /**
   * An accented capital keeps its base letter: a character whose small letter decomposes into an
   * a-z letter and a combining mark comes out as that letter, as "\U{da}" comes out as "u".
   */
  lemma RegexCleanAccentedLetter(c: char, b: char, m: char, nfd: string -> string, isMark: char -> bool,
                                 subs: string -> string)
    requires 'a' <= b <= 'z' && isMark(m) && !isMark(b)
    requires nfd([LowerChar(c)]) == [b, m] && subs([b]) == [b]
    ensures RegexClean(Str([c]), nfd, isMark, subs) == [b]
  {
    assert Lower([c]) == [LowerChar(c)];
    assert [b, m][1..] == [m] && [m][1..] == [];
    assert Unmarked([b, m], isMark) == [b];
    assert Prepared([c], nfd, isMark, subs) == [b];
    LowerWordPasses([b]);
  }

  /** "\U{da}" (capital U with acute) comes out as "u" when NFD splits "\U{fa}" into u and the combining acute. */
  lemma RegexCleanCapitalU(nfd: string -> string, isMark: char -> bool, subs: string -> string)
    requires nfd("\U{fa}") == "u\U{301}" && isMark('\U{301}') && !isMark('u') && subs("u") == "u"
    ensures RegexClean(Str("\U{da}"), nfd, isMark, subs) == "u"
  {
    RegexCleanAccentedLetter('\U{da}', 'u', '\U{301}', nfd, isMark, subs);
  }

  /** A non-empty word of lower-case letters goes through the digit, mask and whitespace passes unchanged. */
  lemma LowerWordPasses(l: string)
    requires l != [] && forall i :: 0 <= i < |l| ==> 'a' <= l[i] <= 'z'
    ensures Normalize(MaskNonLetters(DigitRuns(l))) == l
  {
    WordHasNoDigit(l);
    WordUnmasked(l);
    WordNormalized(l);
    NormalizeFixes(l);
  }

  lemma WordHasNoDigit(l: string)
    requires forall i :: 0 <= i < |l| ==> 'a' <= l[i] <= 'z'
    ensures DigitRuns(l) == l
  {
    assert forall i :: 0 <= i < |l| ==> !IsAsciiDigit(l[i]);
    DigitRunsFixes(l);
  }

  lemma WordUnmasked(l: string)
    requires forall i :: 0 <= i < |l| ==> 'a' <= l[i] <= 'z'
    ensures MaskNonLetters(l) == l
  {
    var m := MaskNonLetters(l);
    assert forall i :: 0 <= i < |l| ==> m[i] == l[i];
  }

  lemma WordNormalized(l: string)
    requires forall i :: 0 <= i < |l| ==> 'a' <= l[i] <= 'z'
    ensures Normalized(l)
  {
    assert forall i :: 0 <= i < |l| ==> !IsSpace(l[i]);
  }

  /**
   * remove_markers: the input as it is when the marker list is empty (checked first) or when it
   * is not a str; otherwise the opaque marker and "(video)" substitutions, then whitespace
   * collapsed and stripped.
   */
  function RemoveMarkers(texto: PyValue, quitarSegmento: bool, markers: Option<seq<string>>,
                         substitute: (string, bool, seq<string>) -> string): (r: PyValue)
    ensures (markers.Some? && markers.value == []) || texto.NonStr? ==> r == texto
    ensures texto.Str? && (markers.None? || markers.value != []) ==> r.Str? && Normalized(r.s)
  {
    var ms := if markers.None? then DefaultMarkers else markers.value;
    if ms == [] then texto
    else match texto
      case NonStr => texto
      case Str(t) => Str(Normalize(substitute(t, quitarSegmento, ms)))
  }

  /** remove_markers on a str with markers: the words left by the substitutions, joined by single blanks. */
  lemma RemoveMarkersWords(t: string, quitarSegmento: bool, markers: Option<seq<string>>,
                           substitute: (string, bool, seq<string>) -> string)
    requires markers.None? || markers.value != []
    ensures var ms := if markers.None? then DefaultMarkers else markers.value;
      RemoveMarkers(Str(t), quitarSegmento, markers, substitute) == Str(Join(Words(substitute(t, quitarSegmento, ms))))
  {
    var ms := if markers.None? then DefaultMarkers else markers.value;
    NormalizeWords(substitute(t, quitarSegmento, ms));
  }

  /**
   * clean_text(text, quitar_segmento): regex_clean after remove_markers with the default
   * markers, so its output has regex_clean's shape, and a non-str comes out as "".
   */
  function CleanText(text: PyValue, quitarSegmento: bool, substitute: (string, bool, seq<string>) -> string,
                     nfd: string -> string, isMark: char -> bool, subs: string -> string): (r: string)
    ensures text.NonStr? ==> r == ""
    ensures LettersAndBlanks(r) && Normalized(r)
  {
    RegexClean(RemoveMarkers(text, quitarSegmento, None, substitute), nfd, isMark, subs)
  }

  /**
   * clean_text on a str: the a-z runs of the prepared text of what the marker substitutions
   * left, once its whitespace is normalised, joined by single blanks.
   */
  lemma CleanTextWords(t: string, quitarSegmento: bool, substitute: (string, bool, seq<string>) -> string,
                       nfd: string -> string, isMark: char -> bool, subs: string -> string)
    ensures var u := Normalize(substitute(t, quitarSegmento, DefaultMarkers));
      CleanText(Str(t), quitarSegmento, substitute, nfd, isMark, subs) == Join(Words(Blank(Prepared(u, nfd, isMark, subs))))
  {
    var u := Normalize(substitute(t, quitarSegmento, DefaultMarkers));
    assert RemoveMarkers(Str(t), quitarSegmento, None, substitute) == Str(u);
    RegexCleanWords(u, nfd, isMark, subs);
  }

  /** The punctuation that format_sentence pulls left, in the order it does so. */
  const Marks: seq<char> := ['.', ',', '!', '?', ':', ';']

  /** `[t for t in tokens if t is not None]` */
  function Present(tokens: seq<Option<string>>): (r: seq<string>)
    ensures |r| <= |tokens|
  {
    if tokens == [] then []
    else if tokens[0].Some? then [tokens[0].value] + Present(tokens[1..])
    else Present(tokens[1..])
  }

  /** A string is kept exactly when some token holds it. */
  lemma {:induction false} PresentMember(tokens: seq<Option<string>>, w: string)
    ensures w in Present(tokens) <==> Some(w) in tokens
  {
    if tokens != [] {
      PresentMember(tokens[1..], w);
      assert tokens == [tokens[0]] + tokens[1..];
    }
  }

  /** The visible characters of all the words, in order. */
  function ConcatNonSpace(words: seq<string>): string {
    if words == [] then "" else NonSpace(words[0]) + ConcatNonSpace(words[1..])
  }

  /** Joining adds only the blanks between the words. */
  lemma {:induction false} JoinNonSpace(words: seq<string>)
    ensures NonSpace(Join(words)) == ConcatNonSpace(words)
  {
    if |words| == 1 {
      assert ConcatNonSpace(words) == NonSpace(words[0]) + ConcatNonSpace([]);
    } else if |words| > 1 {
      JoinNonSpace(words[1..]);
      NonSpaceAppend(words[0] + " ", Join(words[1..]));
      NonSpaceAppend(words[0], " ");
      assert NonSpace(" ") == NonSpace(" "[1..]);
    }
  }

  /** `s.replace(" " + p, p)`: every non-overlapping blank-then-p, left to right, loses its blank. */
  function ReplaceSpaceBefore(s: string, p: char): (r: string)
    ensures |r| <= |s|
  {
    if |s| >= 2 && s[0] == ' ' && s[1] == p then [p] + ReplaceSpaceBefore(s[2..], p)
    else if s == [] then []
    else [s[0]] + ReplaceSpaceBefore(s[1..], p)
  }

  /** The replace passes for the marks in order, the last mark's pass last. */
  function ReplaceMarks(s: string, marks: seq<char>): string {
    if marks == [] then s else ReplaceSpaceBefore(ReplaceMarks(s, marks[..|marks| - 1]), marks[|marks| - 1])
  }

  /** A replace pass deletes blanks only: every visible character survives, in order. */
  lemma {:induction false} ReplaceKeepsNonSpace(s: string, p: char)
    requires p != ' '
    ensures NonSpace(ReplaceSpaceBefore(s, p)) == NonSpace(s)
  {
    if |s| >= 2 && s[0] == ' ' && s[1] == p {
      ReplaceKeepsNonSpace(s[2..], p);
      var r := ReplaceSpaceBefore(s, p);
      assert r[1..] == ReplaceSpaceBefore(s[2..], p);
      assert s[1..][1..] == s[2..];
    } else if s != [] {
      ReplaceKeepsNonSpace(s[1..], p);
      var r := ReplaceSpaceBefore(s, p);
      assert r[1..] == ReplaceSpaceBefore(s[1..], p);
    }
  }

  lemma {:induction false} ReplaceMarksKeepsNonSpace(s: string, marks: seq<char>)
    requires ' ' !in marks
    ensures NonSpace(ReplaceMarks(s, marks)) == NonSpace(s)
  {
    if marks != [] {
      ReplaceMarksKeepsNonSpace(s, marks[..|marks| - 1]);
      ReplaceKeepsNonSpace(ReplaceMarks(s, marks[..|marks| - 1]), marks[|marks| - 1]);
    }
  }

  function UpperChar(c: char): char {
    if 'a' <= c <= 'z' then (c as int - 32) as char else c
  }

  /** What format_sentence returns (ASCII upper-casing of the first character). */
  function Formatted(tokens: seq<Option<string>>, capitalizeFirst: bool, addFinalPunct: bool): string {
    Finish(Strip(ReplaceMarks(Join(Present(tokens)), Marks)), capitalizeFirst, addFinalPunct)
  }

  /** The last two steps of format_sentence on the stripped text t: the final '.', the capital. */
  function Finish(t: string, capitalizeFirst: bool, addFinalPunct: bool): string {
    var u := if addFinalPunct && t != [] && t[|t| - 1] !in ".!?" then t + "." else t;
    if capitalizeFirst && u != [] then [UpperChar(u[0])] + u[1..] else u
  }

  /**
   * format_sentence: join the present tokens with blanks, run one replace pass per mark,
   * strip, add a final '.', upper-case the first character.
   */
  method FormatSentence(tokens: seq<Option<string>>, capitalizeFirst: bool, addFinalPunct: bool)
    returns (sentence: string)
    ensures sentence == Formatted(tokens, capitalizeFirst, addFinalPunct)
  {
    var joined := Join(Present(tokens));
    sentence := joined;
    for k := 0 to |Marks|
      invariant sentence == ReplaceMarks(joined, Marks[..k])
    {
      assert Marks[..k + 1][..k] == Marks[..k];
      sentence := ReplaceSpaceBefore(sentence, Marks[k]);
    }
    assert Marks[..|Marks|] == Marks;
    sentence := Strip(sentence);
    if addFinalPunct && sentence != [] && sentence[|sentence| - 1] !in ".!?" {
      sentence := sentence + ".";
    }
    if capitalizeFirst && sentence != [] {
      sentence := [UpperChar(sentence[0])] + sentence[1..];
    }
  }

  /** With add_final_punct, a non-empty sentence ends in '.', '!' or '?'. */
  lemma FormattedEndsWithMark(tokens: seq<Option<string>>, capitalizeFirst: bool)
    ensures var r := Formatted(tokens, capitalizeFirst, true);
      r != [] ==> r[|r| - 1] in ".!?"
  {
    FinishEndsWithMark(Strip(ReplaceMarks(Join(Present(tokens)), Marks)), capitalizeFirst);
  }

  lemma FinishEndsWithMark(t: string, capitalizeFirst: bool)
    ensures var r := Finish(t, capitalizeFirst, true);
      r != [] ==> r[|r| - 1] in ".!?"
  {
  }

  /** Tokens that are all None or "" (no truthy token) give the empty sentence, whatever the flags. */
  lemma FormattedOfNothing(tokens: seq<Option<string>>, capitalizeFirst: bool, addFinalPunct: bool)
    requires forall i :: 0 <= i < |tokens| ==> tokens[i].None? || tokens[i].value == ""
    ensures Formatted(tokens, capitalizeFirst, addFinalPunct) == ""
  {
    var words := Present(tokens);
    forall k | 0 <= k < |words|
      ensures words[k] == ""
    {
      PresentMember(tokens, words[k]);
    }
    var j := Join(words);
    JoinOfEmpty(words);
    ReplaceMarksOfBlanks(j, Marks);
    StripOfBlanks(j);
  }

  /** Joining empty strings leaves only the blanks between them. */
  lemma {:induction false} JoinOfEmpty(words: seq<string>)
    requires forall k :: 0 <= k < |words| ==> words[k] == ""
    ensures forall i :: 0 <= i < |Join(words)| ==> Join(words)[i] == ' '
  {
    if |words| > 1 {
      JoinOfEmpty(words[1..]);
      assert Join(words) == "" + " " + Join(words[1..]);
    }
  }

  /** The replace passes find nothing to do in a text of blanks. */
  lemma {:induction false} ReplaceMarksOfBlanks(s: string, marks: seq<char>)
    requires ' ' !in marks && forall i :: 0 <= i < |s| ==> s[i] == ' '
    ensures ReplaceMarks(s, marks) == s
  {
    if marks != [] {
      ReplaceMarksOfBlanks(s, marks[..|marks| - 1]);
      ReplaceOfBlanks(s, marks[|marks| - 1]);
    }
  }

  lemma {:induction false} ReplaceOfBlanks(s: string, p: char)
    requires p != ' ' && forall i :: 0 <= i < |s| ==> s[i] == ' '
    ensures ReplaceSpaceBefore(s, p) == s
  {
    if s != [] {
      ReplaceOfBlanks(s[1..], p);
      assert s == [s[0]] + s[1..];
    }
  }

  lemma StripOfBlanks(s: string)
    requires forall i :: 0 <= i < |s| ==> s[i] == ' '
    ensures Strip(s) == ""
  {
    StripLeftShape(s);
  }

  /** The final punctuation is appended, never substituted: at most one '.' at the end. */
  lemma FinalPunctOnlyAppends(tokens: seq<Option<string>>, capitalizeFirst: bool)
    ensures var plain, punct := Formatted(tokens, capitalizeFirst, false), Formatted(tokens, capitalizeFirst, true);
      punct == plain || (plain != [] && punct == plain + "." && plain[|plain| - 1] !in ".!?")
  {
    FinishOnlyAppends(Strip(ReplaceMarks(Join(Present(tokens)), Marks)), capitalizeFirst);
  }

  lemma FinishOnlyAppends(t: string, capitalizeFirst: bool)
    ensures var plain, punct := Finish(t, capitalizeFirst, false), Finish(t, capitalizeFirst, true);
      punct == plain || (plain != [] && punct == plain + "." && plain[|plain| - 1] !in ".!?")
  {
  }

  /** capitalize_first changes the first character, to its upper case, and nothing else. */
  lemma CapitalizeOnlyFirst(tokens: seq<Option<string>>, addFinalPunct: bool)
    ensures var lower, upper := Formatted(tokens, false, addFinalPunct), Formatted(tokens, true, addFinalPunct);
      |upper| == |lower| && (lower != [] ==> upper[0] == UpperChar(lower[0]) && upper[1..] == lower[1..])
  {
    FinishCapitalizesFirst(Strip(ReplaceMarks(Join(Present(tokens)), Marks)), addFinalPunct);
  }

  lemma FinishCapitalizesFirst(t: string, addFinalPunct: bool)
    ensures var lower, upper := Finish(t, false, addFinalPunct), Finish(t, true, addFinalPunct);
      |upper| == |lower| && (lower != [] ==> upper[0] == UpperChar(lower[0]) && upper[1..] == lower[1..])
  {
  }

  /**
   * Without the final period or capital, the sentence holds exactly the visible characters of
   * the present tokens, in order: None tokens are skipped and only blanks are removed.
   */
  lemma FormattedKeepsText(tokens: seq<Option<string>>)
    ensures NonSpace(Formatted(tokens, false, false)) == ConcatNonSpace(Present(tokens))
  {
    var joined := Join(Present(tokens));
    JoinNonSpace(Present(tokens));
    ReplaceMarksKeepsNonSpace(joined, Marks);
    StripKeepsNonSpace(ReplaceMarks(joined, Marks));
  }
}
