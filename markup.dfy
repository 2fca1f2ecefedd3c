/**
 * The scrapers' own `clean_text` (identical in scrapper.py and scrapper_peru21.py): drop every
 * `<...>` tag with `re.sub(r'<[^>]+>', '', text)`, drop emoji (the demoji library, which this
 * model takes as an opaque string map), collapse whitespace and strip.
 */
module Markup {
  import opened Wrappers
  import opened Whitespace

  /** Index of the first `c` in s, if any. */
  function Find(s: string, c: char): (r: Option<nat>)
    ensures r.Some? ==> r.value < |s| && s[r.value] == c && c !in s[..r.value]
    ensures r.None? ==> c !in s
  {
    if s == [] then None
    else if s[0] == c then Some(0)
    else match Find(s[1..], c)
      case None => None
      case Some(k) => assert s[..k + 1] == [s[0]] + s[1..][..k]; Some(k + 1)
  }

  /**
   * Where `<[^>]+>` matches at the front of s: the index of its closing `>`, which must be the
   * first `>` after the opening `<` with at least one character between them.
   */
  function TagEnd(s: string): (r: Option<nat>)
    ensures r.Some? ==> 2 <= r.value < |s| && s[0] == '<' && s[r.value] == '>' && '>' !in s[1..r.value]
    ensures r.None? && s != [] && s[0] == '<' ==> '>' !in s[1..] || s[1] == '>'
  {
    if s == [] || s[0] != '<' then None
    else match Find(s[1..], '>')
      case Some(k) =>
        if k >= 1 then
          assert s[1..][..k] == s[1..k + 1];
          Some(k + 1)
        else None
      case None => None
  }

  /** `re.sub(r'<[^>]+>', '', s)`: scanning left to right, every match is deleted. */
  function StripTags(s: string): (r: string)
    ensures |r| <= |s|
    ensures '>' !in s ==> '>' !in r
    decreases |s|
  {
    if s == [] then []
    else if TagEnd(s).Some? then StripTags(s[TagEnd(s).value + 1..])
    else [s[0]] + StripTags(s[1..])
  }

  /** No match of `<[^>]+>` anywhere: after each `<`, the next `>` (if any) follows at once. */
  predicate NoTag(s: string) {
    forall i, j :: 0 <= i < j < |s| && s[i] == '<' && s[j] == '>' ==> s[i + 1] == '>'
  }

  /** Tag stripping leaves no tag behind: re.sub found every match there was. */
  lemma {:induction false} StripTagsLeavesNoTag(s: string)
    ensures NoTag(StripTags(s))
    decreases |s|
  {
    if s != [] {
      if TagEnd(s).Some? {
        StripTagsLeavesNoTag(s[TagEnd(s).value + 1..]);
      } else {
        var t := StripTags(s[1..]);
        StripTagsLeavesNoTag(s[1..]);
        if s[0] == '<' && '>' in s[1..] {
          assert s[1] == '>';
          assert TagEnd(s[1..]).None?;
          assert t == [s[1]] + StripTags(s[1..][1..]);
        }
        ConsNoTag(s[0], t);
      }
    }
  }

  /** Putting a character in front keeps NoTag, unless it is a `<` that would open a tag. */
  lemma ConsNoTag(c: char, t: string)
    requires NoTag(t)
    requires c == '<' ==> '>' !in t || (t != [] && t[0] == '>')
    ensures NoTag([c] + t)
  {
    var r := [c] + t;
    forall i, j | 0 <= i < j < |r| && r[i] == '<' && r[j] == '>'
      ensures r[i + 1] == '>'
    {
      assert r[j] == t[j - 1];
      if i > 0 {
        assert r[i] == t[i - 1] && r[i + 1] == t[i];
      }
    }
  }

  /** A string with no tag in it is left as it is, so stripping tags twice changes nothing more. */
  lemma {:induction false} StripTagsFixes(s: string)
    requires NoTag(s)
    ensures StripTags(s) == s
    decreases |s|
  {
    if s != [] {
      NoTagTail(s);
      StripTagsFixes(s[1..]);
    }
  }

  lemma NoTagTail(s: string)
    requires NoTag(s) && s != []
    ensures NoTag(s[1..]) && TagEnd(s).None?
  {
    var t := s[1..];
    forall i, j | 0 <= i < j < |t| && t[i] == '<' && t[j] == '>'
      ensures t[i + 1] == '>'
    {
      assert s[i + 1] == '<' && s[j + 1] == '>';
    }
  }

  lemma StripTagsIdempotent(s: string)
    ensures StripTags(StripTags(s)) == StripTags(s)
  {
    StripTagsLeavesNoTag(s);
    StripTagsFixes(StripTags(s));
  }

  /** Text with no `<` in it is copied as it is, whatever follows it. */
  lemma {:induction false} StripTagsKeepsPlain(a: string, b: string)
    requires '<' !in a
    ensures StripTags(a + b) == a + StripTags(b)
  {
    if a == [] {
      assert a + b == b;
    } else {
      assert (a + b)[0] == a[0] && (a + b)[1..] == a[1..] + b;
      StripTagsKeepsPlain(a[1..], b);
      assert [a[0]] + (a[1..] + StripTags(b)) == a + StripTags(b);
    }
  }

  /** A whole tag `<m>`, m non-empty and without `>`, is deleted, and the scan goes on after it. */
  lemma StripTagsDropsTag(m: string, b: string)
    requires m != [] && '>' !in m
    ensures StripTags("<" + m + ">" + b) == StripTags(b)
  {
    var s := "<" + m + ">" + b;
    assert s[1..] == m + ">" + b;
    assert s[1..][|m|] == '>';
    assert TagEnd(s) == Some(|m| + 1);
    assert s[|m| + 2..] == b;
  }

  /**
   * `clean_text(text)` of both scrapers: "" for empty text; otherwise the tag-free, emoji-free
   * text with its whitespace normalised, losing no other character.
   */
  function CleanText(text: string, demoji: string -> string): (r: string)
    ensures text == "" ==> r == ""
    ensures Normalized(r)
    ensures text != "" ==> NonSpace(r) == NonSpace(demoji(StripTags(text)))
  {
    if text == "" then "" else Normalize(demoji(StripTags(text)))
  }

  /** For non-empty text, clean_text is the words of the tag-free, emoji-free text joined by single blanks. */
  lemma CleanTextWords(text: string, demoji: string -> string)
    requires text != ""
    ensures CleanText(text, demoji) == Join(Words(demoji(StripTags(text))))
  {
    NormalizeWords(demoji(StripTags(text)));
  }
}
