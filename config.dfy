/** The configuration getters, as functions of the process environment. In
    each getter an absent variable and an empty one are the same (JavaScript's
    `||` treats both `undefined` and `""` as false). */
module Config {
  import opened Wrappers
  import opened Strings

  type Env = map<string, string>

  const REPOSITORIES := "REPOSITORIES"
  const WARNING_THRESHOLD_DAYS := "WARNING_THRESHOLD_DAYS"
  const EXECUTION_THRESHOLD_DAYS := "EXECUTION_THRESHOLD_DAYS"
  const IMMUNITY_LABELS := "IMMUNITY_LABELS"
  const WARNING_MESSAGE := "WARNING_MESSAGE"
  const CLOSING_MESSAGE := "CLOSING_MESSAGE"
  const REPRIEVE_MESSAGE := "REPRIEVE_MESSAGE"
  const GITHUB_TOKEN := "GITHUB_TOKEN"
  const DYNAMODB_TABLE := "DYNAMODB_TABLE"

  // Long defaults are written as several literals joined with `+`: the
  // verifier then reasons about the short pieces, which keeps the proofs
  // that a placeholder or a comma is absent from them cheap.
  const DefaultImmunityLabels := "do-not-close" + "," + "work-in-progress"
  /** The text before the placeholder in the default warning and closing
      messages. */
  const WarningLead := "This PR has been inactive for "
  const ClosingLead := "This PR has been closed due to "
  const WarningTail := " days. It will be automatically closed in 7 days " + "unless activity is detected."
  const ClosingTail := " days of inactivity."
  const DefaultWarningMessage := WarningLead + "{{days}}" + WarningTail
  const DefaultClosingMessage := ClosingLead + "{{days}}" + ClosingTail
  const DefaultReprieveMessage := "This PR has been granted " + "a temporary stay of execution."
  const DefaultTableName := "pr-grim-reaper-records"
  const TokenMissing := "GITHUB_TOKEN is required"

  /** The variable's value, with `""` for an absent variable. */
  function Var(env: Env, name: string): string {
    if name in env then env[name] else ""
  }

  /** `env[name] || fallback`. */
  function OrElse(env: Env, name: string, fallback: string): (r: string)
    ensures Var(env, name) != "" ==> r == env[name]
    ensures Var(env, name) == "" ==> r == fallback
  {
    if Var(env, name) != "" then env[name] else fallback
  }

  /** Each piece of a comma-separated list, trimmed. */
  function TrimmedPieces(s: string): (r: seq<string>)
    ensures |r| == |Split(s, ',')| >= 1
    ensures forall i :: 0 <= i < |r| ==> r[i] == Trim(Split(s, ',')[i])
  {
    var parts := Split(s, ',');
    seq(|parts|, i requires 0 <= i < |parts| => Trim(parts[i]))
  }

  /** `getRepositories`: no repositories (meaning all accessible ones) when
      the variable is absent or empty, otherwise its comma-separated pieces,
      trimmed, empty pieces kept. */
  function Repositories(env: Env): (r: seq<string>)
    ensures Var(env, REPOSITORIES) == "" <==> r == []
    ensures r != [] ==> r == TrimmedPieces(env[REPOSITORIES])
  {
    var s := OrElse(env, REPOSITORIES, "");
    if s != "" then TrimmedPieces(s) else []
  }

  /** `getWarningThresholdDays`: `parseInt` of the variable or of "14";
      `None` stands for `NaN`. */
  function WarningThresholdDays(env: Env): (r: Option<int>)
    ensures Var(env, WARNING_THRESHOLD_DAYS) == "" ==> r == Some(14)
    ensures Var(env, WARNING_THRESHOLD_DAYS) != "" ==> r == ParseInt(Var(env, WARNING_THRESHOLD_DAYS))
  {
    SmallDecimals();
    ParseIntRoundTrip(14);
    ParseInt(OrElse(env, WARNING_THRESHOLD_DAYS, "14"))
  }

  /** `getExecutionThresholdDays`: `parseInt` of the variable or of "7". */
  function ExecutionThresholdDays(env: Env): (r: Option<int>)
    ensures Var(env, EXECUTION_THRESHOLD_DAYS) == "" ==> r == Some(7)
    ensures Var(env, EXECUTION_THRESHOLD_DAYS) != "" ==> r == ParseInt(Var(env, EXECUTION_THRESHOLD_DAYS))
  {
    SmallDecimals();
    ParseIntRoundTrip(7);
    ParseInt(OrElse(env, EXECUTION_THRESHOLD_DAYS, "7"))
  }

  lemma SmallDecimals()
    ensures IntToDecimal(14) == "14" && IntToDecimal(7) == "7"
  {
    assert NatToDecimal(1) == "1";
  }

  /** The warning threshold is 14 days when its variable is absent or empty;
      a variable holding the decimal rendering of a number gives that number,
      and any variable made of decimal digits gives the number they write,
      leading zeros included. */
  lemma WarningThresholdDefault(env: Env, n: int)
    ensures Var(env, WARNING_THRESHOLD_DAYS) == "" ==> WarningThresholdDays(env) == Some(14)
    ensures Var(env, WARNING_THRESHOLD_DAYS) == IntToDecimal(n) ==> WarningThresholdDays(env) == Some(n)
    ensures Var(env, WARNING_THRESHOLD_DAYS) != "" && AllDigits(Var(env, WARNING_THRESHOLD_DAYS)) ==>
              WarningThresholdDays(env) == Some(DecimalValue(Var(env, WARNING_THRESHOLD_DAYS)) as int)
  {
    SmallDecimals();
    ParseIntRoundTrip(14);
    ParseIntRoundTrip(n);
    if Var(env, WARNING_THRESHOLD_DAYS) != "" && AllDigits(Var(env, WARNING_THRESHOLD_DAYS)) {
      ParseIntDigits(Var(env, WARNING_THRESHOLD_DAYS));
    }
  }

  /** The execution threshold is 7 days when its variable is absent or empty;
      a variable holding the decimal rendering of a number gives that number,
      and any variable made of decimal digits gives the number they write,
      leading zeros included. */
  lemma ExecutionThresholdDefault(env: Env, n: int)
    ensures Var(env, EXECUTION_THRESHOLD_DAYS) == "" ==> ExecutionThresholdDays(env) == Some(7)
    ensures Var(env, EXECUTION_THRESHOLD_DAYS) == IntToDecimal(n) ==> ExecutionThresholdDays(env) == Some(n)
    ensures Var(env, EXECUTION_THRESHOLD_DAYS) != "" && AllDigits(Var(env, EXECUTION_THRESHOLD_DAYS)) ==>
              ExecutionThresholdDays(env) == Some(DecimalValue(Var(env, EXECUTION_THRESHOLD_DAYS)) as int)
  {
    SmallDecimals();
    ParseIntRoundTrip(7);
    ParseIntRoundTrip(n);
    if Var(env, EXECUTION_THRESHOLD_DAYS) != "" && AllDigits(Var(env, EXECUTION_THRESHOLD_DAYS)) {
      ParseIntDigits(Var(env, EXECUTION_THRESHOLD_DAYS));
    }
  }

  /** `getImmunityLabels`: the trimmed comma-separated pieces of the variable,
      or of "do-not-close,work-in-progress". */
  function ImmunityLabels(env: Env): (r: seq<string>)
    ensures |r| >= 1
    ensures Var(env, IMMUNITY_LABELS) != "" ==> r == TrimmedPieces(env[IMMUNITY_LABELS])
  {
    TrimmedPieces(OrElse(env, IMMUNITY_LABELS, DefaultImmunityLabels))
  }

  /** With the variable absent or empty the labels are exactly
      `do-not-close` and `work-in-progress`. */
  lemma ImmunityLabelsDefault(env: Env)
    requires Var(env, IMMUNITY_LABELS) == ""
    ensures ImmunityLabels(env) == ["do-not-close", "work-in-progress"]
  {
    TwoPieces("do-not-close", "work-in-progress");
  }

  /** Two separator-free, already trimmed pieces joined by a comma are read
      back as those two pieces. */
  lemma TwoPieces(a: string, b: string)
    requires ',' !in a && ',' !in b
    requires a != [] && !IsWhitespace(a[0]) && !IsWhitespace(a[|a| - 1])
    requires b != [] && !IsWhitespace(b[0]) && !IsWhitespace(b[|b| - 1])
    ensures TrimmedPieces(a + "," + b) == [a, b]
  {
    SplitCons(a, ',', b);
    SplitFree(b, ',');
    TrimStartNoLeading(a);
    TrimEndNoTrailing(a);
    TrimStartNoLeading(b);
    TrimEndNoTrailing(b);
  }

  /** `getWarningMessage`. */
  function WarningMessage(env: Env): (r: string)
    ensures r != ""
    ensures Var(env, WARNING_MESSAGE) != "" ==> r == env[WARNING_MESSAGE]
  {
    OrElse(env, WARNING_MESSAGE, DefaultWarningMessage)
  }

  /** `getClosingMessage`. */
  function ClosingMessage(env: Env): (r: string)
    ensures r != ""
    ensures Var(env, CLOSING_MESSAGE) != "" ==> r == env[CLOSING_MESSAGE]
  {
    OrElse(env, CLOSING_MESSAGE, DefaultClosingMessage)
  }

  /** `getReprieveMessage`. */
  function ReprieveMessage(env: Env): (r: string)
    ensures r != ""
    ensures Var(env, REPRIEVE_MESSAGE) != "" ==> r == env[REPRIEVE_MESSAGE]
  {
    OrElse(env, REPRIEVE_MESSAGE, DefaultReprieveMessage)
  }

  /** The default warning and closing messages carry `{{days}}`, first right
      after their lead text; the default reprieve message does not, so it is
      posted verbatim. */
  lemma MessageDefaults(env: Env)
    ensures Var(env, WARNING_MESSAGE) == "" ==>
              IndexOf(WarningMessage(env), "{{days}}") == Some(|WarningLead|)
    ensures Var(env, CLOSING_MESSAGE) == "" ==>
              IndexOf(ClosingMessage(env), "{{days}}") == Some(|ClosingLead|)
    ensures Var(env, REPRIEVE_MESSAGE) == "" ==> !Contains(ReprieveMessage(env), "{{days}}")
  {
    WarningPlaceholder();
    ClosingPlaceholder();
    ReprievePlain();
  }

  lemma WarningPlaceholder()
    ensures IndexOf(DefaultWarningMessage, "{{days}}") == Some(|WarningLead|)
  {
    PlaceholderAfterLead(WarningLead, WarningTail);
  }

  lemma ClosingPlaceholder()
    ensures IndexOf(DefaultClosingMessage, "{{days}}") == Some(|ClosingLead|)
  {
    PlaceholderAfterLead(ClosingLead, ClosingTail);
  }

  lemma ReprievePlain()
    ensures !Contains(DefaultReprieveMessage, "{{days}}")
  {
    assert '{' !in DefaultReprieveMessage;
    NotContainsWithoutFirstChar(DefaultReprieveMessage, "{{days}}");
  }

  lemma PlaceholderAfterLead(lead: string, rest: string)
    requires '{' !in lead
    ensures IndexOf(lead + "{{days}}" + rest, "{{days}}") == Some(|lead|)
  {
    var s := lead + "{{days}}" + rest;
    assert s[|lead|..|lead| + 8] == "{{days}}";
    assert s[..|lead|] == lead;
    IndexOfAt(s, "{{days}}", |lead|);
  }

  /** `getGitHubToken`: the token, or the error the source throws when it is
      absent or empty. */
  function GitHubToken(env: Env): (r: Result<string, string>)
    ensures r.Success? <==> Var(env, GITHUB_TOKEN) != ""
    ensures r.Success? ==> r.value == env[GITHUB_TOKEN]
    ensures r.Failure? ==> r.error == TokenMissing
  {
    var token := Var(env, GITHUB_TOKEN);
    if token == "" then Failure(TokenMissing) else Success(token)
  }

  /** `getDynamoTableName`. */
  function DynamoTableName(env: Env): (r: string)
    ensures Var(env, DYNAMODB_TABLE) == "" ==> r == DefaultTableName
    ensures Var(env, DYNAMODB_TABLE) != "" ==> r == env[DYNAMODB_TABLE]
  {
    OrElse(env, DYNAMODB_TABLE, DefaultTableName)
  }
}
