/**
 * The scratch file name codec: `<YYYY-MM-DD>_<title>.<ext>`, where the title
 * loses every character that file systems forbid and has every whitespace
 * character replaced by one underscore.
 */
module FilenameCodec {

  /** The characters `/ \ : < > " | ? *` that the title loses. */
  predicate IsForbidden(c: char) {
    c == '/' || c == '\\' || c == ':' || c == '<' || c == '>' ||
    c == '"' || c == '|' || c == '?' || c == '*'
  }

  /**
   * The characters of the regular-expression class `\s`: the white space
   * and line terminator characters of ECMAScript.
   */
  predicate IsWhitespace(c: char) {
    c == '\t' || c == '\n' || c == '\U{000B}' || c == '\U{000C}' || c == '\r' ||
    c == ' ' || c == '\U{00A0}' || c == '\U{1680}' ||
    ('\U{2000}' <= c <= '\U{200A}') ||
    c == '\U{2028}' || c == '\U{2029}' || c == '\U{202F}' || c == '\U{205F}' ||
    c == '\U{3000}' || c == '\U{FEFF}'
  }

  /** How many characters of `s` are forbidden. */
  function CountForbidden(s: string): (n: nat)
    ensures n <= |s|
  {
    if s == [] then 0
    else (if IsForbidden(s[0]) then 1 else 0) + CountForbidden(s[1..])
  }

  /** The first global replace: every forbidden character removed. */
  function RemoveForbidden(s: string): (r: string)
    ensures forall i :: 0 <= i < |r| ==> !IsForbidden(r[i])
    ensures |r| == |s| - CountForbidden(s)
  {
    if s == [] then []
    else if IsForbidden(s[0]) then RemoveForbidden(s[1..])
    else [s[0]] + RemoveForbidden(s[1..])
  }

  /** The second global replace: every whitespace character becomes `_`. */
  function ReplaceWhitespace(s: string): (r: string)
    ensures |r| == |s|
    ensures forall i :: 0 <= i < |s| ==> r[i] == if IsWhitespace(s[i]) then '_' else s[i]
  {
    if s == [] then []
    else [if IsWhitespace(s[0]) then '_' else s[0]] + ReplaceWhitespace(s[1..])
  }

  /** The title segment of a scratch file name. */
  function NormalizeTitle(title: string): (r: string)
    ensures forall i :: 0 <= i < |r| ==> !IsForbidden(r[i]) && !IsWhitespace(r[i])
    ensures |r| == |title| - CountForbidden(title)
  {
    ReplaceWhitespace(RemoveForbidden(title))
  }

  /** What one character of the title becomes. */
  function NormalizeChar(c: char): string {
    if IsForbidden(c) then [] else if IsWhitespace(c) then "_" else [c]
  }

  /**
   * The scratch file name for a title and an extension, on the day whose
   * ISO form (the first ten characters of `toISOString`) is `isoDate`.
   */
  function ScratchFilename(isoDate: string, title: string, extension: string): (r: string)
    requires |isoDate| == 10
    ensures |r| == 12 + |title| - CountForbidden(title) + |extension|
    ensures r[..10] == isoDate && r[10] == '_'
    ensures r[11..|r| - |extension| - 1] == NormalizeTitle(title)
    ensures r[|r| - |extension| - 1] == '.' && r[|r| - |extension|..] == extension
  {
    isoDate + "_" + NormalizeTitle(title) + "." + extension
  }

  lemma {:induction false} RemoveForbiddenAppend(a: string, b: string)
    ensures RemoveForbidden(a + b) == RemoveForbidden(a) + RemoveForbidden(b)
  {
    if a == [] {
      assert a + b == b;
    } else {
      assert (a + b)[1..] == a[1..] + b;
      RemoveForbiddenAppend(a[1..], b);
    }
  }

  lemma {:induction false} ReplaceWhitespaceAppend(a: string, b: string)
    ensures ReplaceWhitespace(a + b) == ReplaceWhitespace(a) + ReplaceWhitespace(b)
  {
    // ReplaceWhitespace is a character-wise map, so its contract settles this.
  }

  /**
   * Normalizing works character by character: the title of `a + b` is the
   * title of `a` followed by the title of `b`, and one character becomes
   * nothing (forbidden), `_` (whitespace) or itself.
   */
  lemma {:induction false} NormalizeTitleAppend(a: string, b: string)
    ensures NormalizeTitle(a + b) == NormalizeTitle(a) + NormalizeTitle(b)
  {
    RemoveForbiddenAppend(a, b);
    ReplaceWhitespaceAppend(RemoveForbidden(a), RemoveForbidden(b));
  }

  lemma NormalizeTitleChar(c: char)
    ensures NormalizeTitle([c]) == NormalizeChar(c)
  {
    assert [c][1..] == [];
  }

  /** A title with neither forbidden nor whitespace characters is kept as it is. */
  lemma {:induction false} NormalizeTitleClean(title: string)
    requires forall i :: 0 <= i < |title| ==> !IsForbidden(title[i]) && !IsWhitespace(title[i])
    ensures NormalizeTitle(title) == title
  {
    if title != [] {
      NormalizeTitleClean(title[1..]);
      assert title == [title[0]] + title[1..];
      NormalizeTitleAppend([title[0]], title[1..]);
      NormalizeTitleChar(title[0]);
    }
  }

  /** Normalizing twice is normalizing once. */
  lemma NormalizeTitleIdempotent(title: string)
    ensures NormalizeTitle(NormalizeTitle(title)) == NormalizeTitle(title)
  {
    NormalizeTitleClean(NormalizeTitle(title));
  }

  /** Removing the forbidden characters keeps every other character, in order. */
  lemma {:induction false} RemoveForbiddenKeeps(s: string, i: nat)
    requires i < |s| && !IsForbidden(s[i])
    ensures CountForbidden(s[..i]) <= i < |RemoveForbidden(s)| + CountForbidden(s[..i])
    ensures RemoveForbidden(s)[i - CountForbidden(s[..i])] == s[i]
  {
    assert s == s[..i] + s[i..];
    RemoveForbiddenAppend(s[..i], s[i..]);
    assert s[i..] == [s[i]] + s[i + 1..];
    RemoveForbiddenAppend([s[i]], s[i + 1..]);
    assert [s[i]][1..] == [];
  }
}
