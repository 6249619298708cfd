/** The blank-note heuristic of the scan: a note is blank when nothing but
    whitespace follows its first line, or when it matches the configured
    journal template after whitespace normalisation. */
module Classifier {
  import opened Text

  /** `isUnfilledJournalTemplate`: false for a missing, empty or
      whitespace-only template; otherwise the whole note (title line
      included) and the template must be equal once normalised. */
  predicate TemplateMatches(content: string, template: string) {
    if Trim(template) == [] then false
    else Normalize(content) == Normalize(template)
  }

  /** What the scan derives from one note's text. */
  datatype Assessment = Assessment(title: string, contentLength: nat, nonBlankLines: nat, isBlank: bool)

  /** Number of lines whose trimmed length is positive. */
  function CountNonBlank(lines: seq<string>): (n: nat)
    ensures n <= |lines|
    ensures n == 0 <==> forall k :: 0 <= k < |lines| ==> AllWs(lines[k])
  {
    if lines == [] then 0
    else
      var n := |lines| - 1;
      TrimEmptyIffAllWs(lines[n]);
      assert forall k :: 0 <= k < n ==> lines[..n][k] == lines[k];
      CountNonBlank(lines[..n]) + (if |Trim(lines[n])| > 0 then 1 else 0)
  }

  /** The lines after the first one. */
  function Body(content: string): seq<string> {
    Split(content)[1..]
  }

  ghost predicate BodyIsBlank(content: string) {
    forall k :: 0 <= k < |Body(content)| ==> AllWs(Body(content)[k])
  }

  /** The per-note computation of the scan loop: title, length of the trimmed
      body, count of non-blank body lines and the blank verdict. */
  function Assess(content: string, template: string): (a: Assessment)
    ensures a.title == Trim(Split(content)[0])
    ensures a.contentLength == 0 <==> a.nonBlankLines == 0
    ensures a.contentLength == 0 <==> BodyIsBlank(content)
    ensures a.isBlank <==> BodyIsBlank(content) || TemplateMatches(content, template)
  {
    var lines := Split(content);
    var body := lines[1..];
    var contentLength := |Trim(Join(body))|;
    var nonBlankLines := CountNonBlank(body);
    BlankBodyFacts(content);
    Assessment(Trim(lines[0]), contentLength, nonBlankLines,
               contentLength == 0 || nonBlankLines == 0 || TemplateMatches(content, template))
  }

  /** The trimmed body is empty exactly when no body line holds anything
      but whitespace. */
  lemma BlankBodyFacts(content: string)
    ensures |Trim(Join(Body(content)))| == 0 <==> BodyIsBlank(content)
    ensures CountNonBlank(Body(content)) == 0 <==> BodyIsBlank(content)
  {
    JoinAllWs(Body(content));
    TrimEmptyIffAllWs(Join(Body(content)));
  }

  predicate IsBlank(content: string, template: string) {
    Assess(content, template).isBlank
  }

  // ---------------------------------------------------------------------
  // Properties of the classifier.

  /** An empty or whitespace-only template never matches any note. */
  lemma BlankTemplateNeverMatches(content: string, template: string)
    requires AllWs(template)
    ensures !TemplateMatches(content, template)
    ensures IsBlank(content, template) <==> BodyIsBlank(content)
  {
    TrimEmptyIffAllWs(template);
  }

  /** Matching notes have the same non-whitespace characters, in the same
      order, as the template. */
  lemma MatchKeepsNonWs(content: string, template: string)
    requires TemplateMatches(content, template)
    ensures NonWs(content) == NonWs(template)
    ensures !AllWs(template)
  {
    TrimEmptyIffAllWs(template);
    NormalizeKeepsNonWs(content);
    NormalizeKeepsNonWs(template);
  }

  /** A note that differs from the template in its non-whitespace characters
      never matches. */
  lemma NonWsMismatchNeverMatches(content: string, template: string)
    requires NonWs(content) != NonWs(template)
    ensures !TemplateMatches(content, template)
  {
    if TemplateMatches(content, template) {
      MatchKeepsNonWs(content, template);
    }
  }

  /** A note identical to a non-blank template matches it (and so is blank);
      an identical note never matches a blank template. */
  lemma SelfMatch(template: string)
    ensures TemplateMatches(template, template) <==> !AllWs(template)
    ensures !AllWs(template) ==> IsBlank(template, template)
  {
    TrimEmptyIffAllWs(template);
  }

  /** Near miss: inserting one non-whitespace character anywhere into a note
      that matches the template makes it stop matching. */
  lemma NearMissRejected(content: string, template: string, i: nat, x: char)
    requires TemplateMatches(content, template)
    requires i <= |content| && !IsWs(x)
    ensures !TemplateMatches(content[..i] + [x] + content[i..], template)
  {
    MatchKeepsNonWs(content, template);
    InsertGrowsNonWs(content, i, x);
    NonWsMismatchNeverMatches(content[..i] + [x] + content[i..], template);
  }

  /** A note that spells one whitespace run of the template differently
      (a tab for a space, several blank lines for one newline) still
      matches it. */
  lemma RespacedNoteMatches(a: string, w1: string, w2: string, b: string)
    requires w1 != [] && AllWs(w1) && w2 != [] && AllWs(w2) && !AllWs(a + w1 + b)
    ensures TemplateMatches(a + w2 + b, a + w1 + b)
  {
    TrimEmptyIffAllWs(a + w1 + b);
    NormalizeIgnoresRuns(a, w1, w2, b);
  }

  /** A note that adds whitespace before or after a non-blank template
      (leading blank lines, trailing spaces) still matches it. */
  lemma PaddedNoteMatches(w1: string, template: string, w2: string)
    requires AllWs(w1) && AllWs(w2) && !AllWs(template)
    ensures TemplateMatches(w1 + template + w2, template)
  {
    TrimEmptyIffAllWs(template);
    NormalizeIgnoresEnds(w1, template, w2);
  }

  lemma InsertGrowsNonWs(s: string, i: nat, x: char)
    requires i <= |s| && !IsWs(x)
    ensures |NonWs(s[..i] + [x] + s[i..])| == |NonWs(s)| + 1
  {
    NonWsConcat(s[..i] + [x], s[i..]);
    NonWsConcat(s[..i], [x]);
    NonWsConcat(s[..i], s[i..]);
    assert s[..i] + s[i..] == s;
    assert NonWs([x]) == [x];
  }

  /** A note with only whitespace after its first line is blank whatever the
      template. */
  lemma BlankBodyIsBlank(content: string, template: string)
    requires forall k :: 1 <= k < |Split(content)| ==> AllWs(Split(content)[k])
    ensures IsBlank(content, template)
    ensures Assess(content, template).contentLength == 0
  {
    var lines := Split(content);
    forall k | 0 <= k < |Body(content)| ensures AllWs(Body(content)[k]) {
      assert Body(content)[k] == lines[k + 1];
    }
  }

  /** The title is the first line, trimmed; the text after the first
      newline is what the blank test looks at. */
  lemma TitleAndBody(title: string, rest: string, template: string)
    requires '\n' !in title
    ensures Assess(title + ['\n'] + rest, template).title == Trim(title)
    ensures Body(title + ['\n'] + rest) == Split(rest)
    ensures Assess(title + ['\n'] + rest, template).contentLength == |Trim(rest)|
  {
    SplitAfterLine(title, rest);
    assert ([title] + Split(rest))[1..] == Split(rest);
    JoinSplit(rest);
  }
}
