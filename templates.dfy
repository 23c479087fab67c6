/**
 * Templates: a named content skeleton with an extension, the three
 * placeholders `{{title}}`, `{{username}}` and `{{date}}` filled by
 * first-occurrence replacement, and lookup by exact name.
 */
module Templates {
  import opened Wrappers

  datatype Template = Template(name: string, content: string, extension: string)

  /** The fill values; `date` is the already formatted (locale) date string. */
  datatype TemplateData = TemplateData(title: string, username: string, date: string)

  datatype TemplateError = TemplateNotFound(name: string)

  const TitlePlaceholder: string := "{{title}}"
  const UsernamePlaceholder: string := "{{username}}"
  const DatePlaceholder: string := "{{date}}"

  /** `pat` occurs in `s` starting at index `j`. */
  predicate OccursAt(s: string, pat: string, j: int) {
    0 <= j && j + |pat| <= |s| && s[j..j + |pat|] == pat
  }

  /** `i` is the first index at which `pat` occurs in `s`. */
  predicate IsFirstOccurrence(s: string, pat: string, i: int) {
    OccursAt(s, pat, i) && forall j :: 0 <= j < i ==> !OccursAt(s, pat, j)
  }

  /** `indexOf` from index `k` on: the first occurrence at or after `k`. */
  function IndexOfFrom(s: string, pat: string, k: nat): (r: Option<nat>)
    requires forall j :: 0 <= j < k ==> !OccursAt(s, pat, j)
    ensures r.Some? ==> IsFirstOccurrence(s, pat, r.value)
    ensures r.None? ==> forall j :: !OccursAt(s, pat, j)
    decreases |s| - k
  {
    if k + |pat| > |s| then None
    else if s[k..k + |pat|] == pat then Some(k)
    else IndexOfFrom(s, pat, k + 1)
  }

  /** `s.indexOf(pat)`, with None for -1. */
  function IndexOf(s: string, pat: string): (r: Option<nat>)
    ensures r.Some? ==> IsFirstOccurrence(s, pat, r.value)
    ensures r.None? ==> forall j :: !OccursAt(s, pat, j)
  {
    IndexOfFrom(s, pat, 0)
  }

  /**
   * `s.replace(pat, rep)` with the replacement inserted literally: the first
   * occurrence of `pat` becomes `rep`, anything else is kept.
   */
  function ReplaceFirst(s: string, pat: string, rep: string): (r: string)
    ensures (forall j :: !OccursAt(s, pat, j)) ==> r == s
    ensures forall i :: IsFirstOccurrence(s, pat, i) ==> r == s[..i] + rep + s[i + |pat|..]
  {
    match IndexOf(s, pat)
    case None => s
    case Some(i) =>
      FirstOccurrenceUnique(s, pat, i);
      s[..i] + rep + s[i + |pat|..]
  }

  lemma FirstOccurrenceUnique(s: string, pat: string, i: int)
    requires IsFirstOccurrence(s, pat, i)
    ensures forall k :: IsFirstOccurrence(s, pat, k) ==> k == i
  {
  }

  /** The content of a scratch file rendered from a template, with literal replacement. */
  function Render(content: string, data: TemplateData): (r: string)
  {
    var withTitle := ReplaceFirst(content, TitlePlaceholder, data.title);
    var withUsername := ReplaceFirst(withTitle, UsernamePlaceholder, data.username);
    ReplaceFirst(withUsername, DatePlaceholder, data.date)
  }

  /** `s` holds no `$`, so no replacement pattern. */
  predicate NoDollar(s: string) {
    forall k :: 0 <= k < |s| ==> s[k] != '$'
  }

  /**
   * What `String.prototype.replace` inserts for a replacement string when the
   * pattern is a string (so there are no capture groups): `$$` is `$`, `$&` is
   * the matched text, `` $` `` the text before the match, `$'` the text after
   * it; every other `$` stays as it is.
   */
  function ExpandReplacement(rep: string, s: string, pos: nat, matched: string): (r: string)
    requires pos + |matched| <= |s|
    ensures NoDollar(rep) ==> r == rep
  {
    if rep == [] then []
    else if rep[0] == '$' && |rep| >= 2 && rep[1] == '$' then
      "$" + ExpandReplacement(rep[2..], s, pos, matched)
    else if rep[0] == '$' && |rep| >= 2 && rep[1] == '&' then
      matched + ExpandReplacement(rep[2..], s, pos, matched)
    else if rep[0] == '$' && |rep| >= 2 && rep[1] == '`' then
      s[..pos] + ExpandReplacement(rep[2..], s, pos, matched)
    else if rep[0] == '$' && |rep| >= 2 && rep[1] == '\'' then
      s[pos + |matched|..] + ExpandReplacement(rep[2..], s, pos, matched)
    else
      [rep[0]] + ExpandReplacement(rep[1..], s, pos, matched)
  }

  /** `s.replace(pat, rep)` exactly as the engine runs it, `$` patterns included. */
  function ReplaceFirstAsWritten(s: string, pat: string, rep: string): (r: string)
    ensures (forall j :: !OccursAt(s, pat, j)) ==> r == s
    ensures NoDollar(rep) ==> r == ReplaceFirst(s, pat, rep)
  {
    match IndexOf(s, pat)
    case None => s
    case Some(i) =>
      FirstOccurrenceUnique(s, pat, i);
      s[..i] + ExpandReplacement(rep, s, i, pat) + s[i + |pat|..]
  }

  /** The three chained replacements of the source, `$` patterns included. */
  function RenderAsWritten(content: string, data: TemplateData): (r: string)
  {
    var withTitle := ReplaceFirstAsWritten(content, TitlePlaceholder, data.title);
    var withUsername := ReplaceFirstAsWritten(withTitle, UsernamePlaceholder, data.username);
    ReplaceFirstAsWritten(withUsername, DatePlaceholder, data.date)
  }

  /** Where no fill value holds a `$`, the source and the literal rendering agree. */
  lemma RenderAsWrittenAgrees(content: string, data: TemplateData)
    requires NoDollar(data.title) && NoDollar(data.username) && NoDollar(data.date)
    ensures RenderAsWritten(content, data) == Render(content, data)
  {
  }

  /** `pat` cannot occur in `s` when one of its characters is missing from `s`. */
  lemma AbsentCharNoOccurrence(s: string, pat: string, k: int)
    requires 0 <= k < |pat| && forall m :: 0 <= m < |s| ==> s[m] != pat[k]
    ensures forall j :: !OccursAt(s, pat, j)
  {
    forall j ensures !OccursAt(s, pat, j) {
      if 0 <= j && j + |pat| <= |s| {
        assert s[j..j + |pat|][k] != pat[k];
      }
    }
  }

  /** An occurrence with no earlier copy of the pattern's first character is the first one. */
  lemma FirstOccurrenceByFirstChar(s: string, pat: string, i: int)
    requires OccursAt(s, pat, i) && |pat| > 0
    requires forall m :: 0 <= m < i ==> s[m] != pat[0]
    ensures IsFirstOccurrence(s, pat, i)
  {
    forall j | 0 <= j < i ensures !OccursAt(s, pat, j) {
      if j + |pat| <= |s| {
        assert s[j..j + |pat|][0] != pat[0];
      }
    }
  }

  /** A title `$&` is not inserted as written: the source puts the placeholder back. */
  lemma RenderAsWrittenDollarTitle()
    ensures RenderAsWritten("{{title}}", TemplateData("$&", "alice", "1/10/2024")) == "{{title}}"
    ensures Render("{{title}}", TemplateData("$&", "alice", "1/10/2024")) == "$&"
  {
    var s := "{{title}}";
    assert IsFirstOccurrence(s, TitlePlaceholder, 0);
    assert "$&"[2..] == [];
    assert ExpandReplacement("$&", s, 0, TitlePlaceholder) == TitlePlaceholder;
    assert ReplaceFirstAsWritten(s, TitlePlaceholder, "$&") == s;
    AbsentCharNoOccurrence(s, DatePlaceholder, 2);
    assert ReplaceFirst(s, TitlePlaceholder, "$&") == "$&";
    AbsentCharNoOccurrence("$&", DatePlaceholder, 2);
  }

  /** Content without any placeholder is left unchanged. */
  lemma RenderWithoutPlaceholders(content: string, data: TemplateData)
    requires forall j :: !OccursAt(content, TitlePlaceholder, j)
    requires forall j :: !OccursAt(content, UsernamePlaceholder, j)
    requires forall j :: !OccursAt(content, DatePlaceholder, j)
    ensures Render(content, data) == content
  {
  }

  /**
   * Only the first occurrence of a placeholder is replaced: a repeated
   * `{{title}}` keeps its second copy, for every title without `{`.
   */
  lemma RenderFirstOccurrenceOnly(data: TemplateData)
    requires NoBrace(data.title)
    ensures Render(TitlePlaceholder + TitlePlaceholder, data) == data.title + TitlePlaceholder
  {
    ReplaceFirstAtStart(TitlePlaceholder, TitlePlaceholder, data.title);
    NoUsernameAfterTitle(data.title);
    NoDateAfterTitle(data.title);
  }

  lemma NoUsernameAfterTitle(title: string)
    requires NoBrace(title)
    ensures forall j :: !OccursAt(title + TitlePlaceholder, UsernamePlaceholder, j)
  {
    var t := title + TitlePlaceholder;
    forall j ensures !OccursAt(t, UsernamePlaceholder, j) {
      if 0 <= j && j + |UsernamePlaceholder| <= |t| {
        assert t[j] == title[j];
        assert t[j..j + |UsernamePlaceholder|][0] != UsernamePlaceholder[0];
      }
    }
  }

  lemma NoDateAfterTitle(title: string)
    requires NoBrace(title)
    ensures forall j :: !OccursAt(title + TitlePlaceholder, DatePlaceholder, j)
  {
    var t := title + TitlePlaceholder;
    var n := |title|;
    forall j ensures !OccursAt(t, DatePlaceholder, j) {
      if 0 <= j && j + |DatePlaceholder| <= |t| {
        if j < n {
          assert t[j] == title[j];
          assert t[j..j + |DatePlaceholder|][0] != DatePlaceholder[0];
        } else if j == n {
          assert t[j + 2] == 't';
          assert t[j..j + |DatePlaceholder|][2] != DatePlaceholder[2];
        } else {
          assert t[j + 1] == 't';
          assert t[j..j + |DatePlaceholder|][1] != DatePlaceholder[1];
        }
      }
    }
  }

  /** The title is filled in first, so a `{{username}}` inside the title is filled in next. */
  lemma RenderTitleBeforeUsername()
    ensures Render("{{title}}", TemplateData("{{username}}", "alice", "d")) == "alice"
  {
    var s := "{{title}}";
    assert IsFirstOccurrence(s, TitlePlaceholder, 0);
    assert ReplaceFirst(s, TitlePlaceholder, "{{username}}") == UsernamePlaceholder;
    assert IsFirstOccurrence(UsernamePlaceholder, UsernamePlaceholder, 0);
    assert ReplaceFirst(UsernamePlaceholder, UsernamePlaceholder, "alice") == "alice";
    AbsentCharNoOccurrence("alice", DatePlaceholder, 2);
  }

  /**
   * In `pre + pat + post`, where `pre` cannot hold the start of `pat`, the
   * replacement lands exactly on that copy of `pat`, whatever `post` holds.
   */
  lemma ReplaceFirstAfter(pre: string, pat: string, post: string, rep: string)
    requires |pat| > 0 && forall m :: 0 <= m < |pre| ==> pre[m] != pat[0]
    ensures ReplaceFirst(pre + pat + post, pat, rep) == pre + rep + post
  {
    var s := pre + pat + post;
    assert s[|pre|..|pre| + |pat|] == pat;
    FirstOccurrenceByFirstChar(s, pat, |pre|);
    assert s[..|pre|] == pre;
    assert s[|pre| + |pat|..] == post;
  }

  predicate NoBrace(s: string) {
    forall m :: 0 <= m < |s| ==> s[m] != '{'
  }

  /**
   * Each placeholder once, in order: each is filled with its value (for fill
   * values that do not themselves start a placeholder).
   */
  lemma RenderEachOnce(data: TemplateData, sep1: string, sep2: string)
    requires NoBrace(data.title) && NoBrace(data.username) && NoBrace(sep1) && NoBrace(sep2)
    ensures Render(TitlePlaceholder + (sep1 + UsernamePlaceholder + (sep2 + DatePlaceholder)), data)
         == data.title + sep1 + data.username + sep2 + data.date
  {
    var pre1 := data.title + sep1;
    var pre2 := pre1 + data.username + sep2;
    NoBraceAppend(data.title, sep1);
    NoBraceAppend(pre1, data.username);
    NoBraceAppend(pre1 + data.username, sep2);
    RenderTitleStep(data.title, sep1, sep2);
    RenderUsernameStep(pre1, data.username, sep2);
    RenderDateStep(pre2, data.date);
  }

  lemma NoBraceAppend(a: string, b: string)
    requires NoBrace(a) && NoBrace(b)
    ensures NoBrace(a + b)
  {
  }

  lemma RenderTitleStep(title: string, sep1: string, sep2: string)
    ensures ReplaceFirst(TitlePlaceholder + (sep1 + UsernamePlaceholder + (sep2 + DatePlaceholder)), TitlePlaceholder, title)
         == title + sep1 + UsernamePlaceholder + (sep2 + DatePlaceholder)
  {
    var rest := sep1 + UsernamePlaceholder + (sep2 + DatePlaceholder);
    ReplaceFirstAtStart(TitlePlaceholder, rest, title);
    assert title + rest == title + sep1 + UsernamePlaceholder + (sep2 + DatePlaceholder);
  }

  lemma ReplaceFirstAtStart(pat: string, post: string, rep: string)
    requires |pat| > 0
    ensures ReplaceFirst(pat + post, pat, rep) == rep + post
  {
    assert pat + post == [] + pat + post;
    ReplaceFirstAfter([], pat, post, rep);
    assert [] + rep + post == rep + post;
  }

  lemma RenderUsernameStep(pre: string, username: string, sep2: string)
    requires NoBrace(pre)
    ensures ReplaceFirst(pre + UsernamePlaceholder + (sep2 + DatePlaceholder), UsernamePlaceholder, username)
         == pre + username + sep2 + DatePlaceholder
  {
    ReplaceFirstAfter(pre, UsernamePlaceholder, sep2 + DatePlaceholder, username);
  }

  lemma RenderDateStep(pre: string, date: string)
    requires NoBrace(pre)
    ensures ReplaceFirst(pre + DatePlaceholder, DatePlaceholder, date) == pre + date
  {
    assert pre + DatePlaceholder == pre + DatePlaceholder + [];
    ReplaceFirstAfter(pre, DatePlaceholder, [], date);
    assert pre + date + [] == pre + date;
  }

  /** `i` is the index of the first template called `name`. */
  predicate IsFirstNamed(templates: seq<Template>, name: string, i: int) {
    0 <= i < |templates| && templates[i].name == name &&
    forall j :: 0 <= j < i ==> templates[j].name != name
  }

  /** `getTemplate`: the first template whose name is exactly `name`, or an error. */
  method GetTemplate(templates: seq<Template>, name: string) returns (r: Result<Template, TemplateError>)
    ensures r.Success? ==> exists i :: IsFirstNamed(templates, name, i) && templates[i] == r.value
    ensures r.Failure? <==> forall i :: 0 <= i < |templates| ==> templates[i].name != name
    ensures r.Failure? ==> r.error == TemplateNotFound(name)
  {
    for i := 0 to |templates|
      invariant forall j :: 0 <= j < i ==> templates[j].name != name
    {
      if templates[i].name == name {
        return Success(templates[i]);
      }
    }
    return Failure(TemplateNotFound(name));
  }
}
