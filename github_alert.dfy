/** The older title-line parser of src/alerts/githubAlert.ts. Its pattern is
    the same grammar as the one in alertParsing.ts with fewer capture
    groups: `^\s*>\s*\[!(types)\](?:[ \t]+(.*))?$`, case-insensitive. It
    reports the type and an optional trimmed title, but no ranges. */
module GithubAlert {
  import opened Wrappers
  import opened Text
  import opened AlertParsing

  /** `{ type }` or `{ type, title }`. */
  datatype LegacyAlert = LegacyAlert(alertType: AlertType, title: Option<string>)

  /** `parseGitHubAlertTitleLine` of githubAlert.ts; `None` is `null`. The
      two capture groups are the token and the rest of the line; the type is
      the lower-cased token and the title the trimmed rest, kept only when it
      is not empty. */
  function ParseLegacy(line: string): (r: Option<LegacyAlert>)
    ensures r.Some? ==> MatchTitleLine(line).Some?
    ensures r.None? ==> MatchTitleLine(line).None?
  {
    match MatchTitleLine(line)
    case None => None
    case Some(p) =>
      var title := Trim(p.rest);
      Some(LegacyAlert(TypeOfToken(p.token).value, if title == "" then None else Some(title)))
  }

  /** A title, when there is one, is the trimmed text after the run of
      spaces and tabs that follows the marker: it is not empty and neither
      begins nor ends with whitespace. */
  lemma {:induction false} LegacyTitleTrimmed(line: string)
    requires ParseLegacy(line).Some? && ParseLegacy(line).value.title.Some?
    ensures var title := ParseLegacy(line).value.title.value;
      && title != ""
      && title == Trim(MatchTitleLine(line).value.rest)
      && !IsWhitespace(title[0]) && !IsWhitespace(title[|title| - 1])
  {
    TrimSpec(MatchTitleLine(line).value.rest);
  }

  /** The old and the new parser accept the same lines and agree on the
      type, and the old one has a title exactly when the new one reports a
      titled alert, with the same title. */
  lemma {:induction false} LegacyAgrees(line: string)
    ensures ParseLegacy(line).None? <==> ParseTitleLine(line).NotAnAlert?
    ensures ParseLegacy(line).Some? ==>
      var a := ParseLegacy(line).value;
      var r := ParseTitleLine(line);
      && a.alertType == r.alertType
      && (a.title.None? <==> r.BareAlert?)
      && (a.title.Some? ==> r.TitledAlert? && a.title.value == r.title)
  {
    ParseInterprets(line);
  }

  /** The parse of the parts of a title line, assembled. */
  lemma {:induction false} LegacyAssembled(p: TitleLineParts)
    requires WellFormed(p)
    ensures ParseLegacy(Assemble(p)) == Some(LegacyAlert(TypeOfToken(p.token).value, if Trim(p.rest) == "" then None else Some(Trim(p.rest))))
  {
    MatchAssembled(p);
  }

  /** The three examples of the documentation comment. */
  lemma ExamplesLegacy()
    ensures ParseLegacy("> [!NOTE]") == Some(LegacyAlert(Note, None))
    ensures ParseLegacy("> [!warning] Optional title") == Some(LegacyAlert(Warning, Some("Optional title")))
    ensures ParseLegacy("   >    [!Tip]") == Some(LegacyAlert(Tip, None))
  {
    ExampleBare();
    LegacyAgrees("> [!NOTE]");
    ExampleTitled();
    LegacyAgrees("> [!warning] Optional title");
    ExampleIndentedBare();
    LegacyAgrees("   >    [!Tip]");
  }
}
