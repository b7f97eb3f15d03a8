/** The deploy script: it resolves the `production` option, builds the deploy
    tool's argument list, runs the tool, extracts the deployment URL from its
    output and produces the `url=<url>` line written to the output file.

    The subprocess is a parameter (`Runner`): the model sees only the record
    `{code, stdout, stderr}` it returns, with both streams already decoded.
 */
module Deploy {
  import opened Wrappers
  import opened Text

  // ---------------------------------------------------------------------------
  // Option resolution
  // ---------------------------------------------------------------------------

  /** The value the flag parser produced for `production`: absent, a boolean,
      or any other value, kept by its textual form. */
  datatype FlagValue = Missing | Bool(b: bool) | NonBool(shown: string)

  /** The parser's output: the `production` value and the positional arguments (`_`). */
  datatype ParsedArgs = ParsedArgs(production: FlagValue, positional: seq<string>)

  /** The options the script runs with, once `production` is known to be a boolean. */
  datatype DeployOptions = DeployOptions(production: bool, positional: seq<string>)

  /** Replaces a `production` value that is not a boolean by `false`; a boolean
      is kept. The result is a boolean, and it is `true` exactly when the
      parser produced `true`. */
  function NormaliseProduction(v: FlagValue): (r: FlagValue)
    ensures r.Bool?
    ensures r.b <==> v == Bool(true)
  {
    if !v.Bool? then Bool(false) else v
  }

  /** A boolean is left untouched, so normalising is idempotent. */
  lemma NormaliseProductionKeepsBooleans(v: FlagValue)
    ensures v.Bool? ==> NormaliseProduction(v) == v
    ensures NormaliseProduction(NormaliseProduction(v)) == NormaliseProduction(v)
  {
  }

  /** `getOptions`: the parsed arguments with `production` resolved to a
      boolean; the positional arguments pass through untouched. */
  function GetOptions(parsed: ParsedArgs): (opts: DeployOptions)
    ensures opts.production <==> parsed.production == Bool(true)
    ensures opts.positional == parsed.positional
  {
    DeployOptions(NormaliseProduction(parsed.production).b, parsed.positional)
  }

  // ---------------------------------------------------------------------------
  // The deploy tool's argument list
  // ---------------------------------------------------------------------------

  /** The executable that performs the deployment. */
  const DeployTool: string := "deployctl"

  /** The fixed leading arguments: the subcommand, the project and the included file. */
  const BaseArgs: seq<string> := ["deploy", "--project=toriexperiments", "--include=main.ts"]

  const ProductionFlag: string := "--production"

  /** The entry module, always the last argument. */
  const EntryModule: string := "main.ts"

  /** The argument list: the fixed leading arguments, `--production` when the
      option is set, then the entry module. */
  function DeployArgs(production: bool): (args: seq<string>)
    ensures |args| == if production then 5 else 4
    ensures args[..3] == ["deploy", "--project=toriexperiments", "--include=main.ts"]
    ensures args[|args| - 1] == "main.ts"
    ensures "--production" in args <==> production
    ensures production ==> args[|args| - 2] == "--production"
  {
    var args := BaseArgs;
    var args := if production then args + [ProductionFlag] else args;
    args + [EntryModule]
  }

  /** The argument list determines the option: distinct settings give
      distinct command lines. */
  lemma DeployArgsInjective(p: bool, q: bool)
    requires DeployArgs(p) == DeployArgs(q)
    ensures p == q
  {
    assert |DeployArgs(p)| == |DeployArgs(q)|;
  }

  // ---------------------------------------------------------------------------
  // Running a command
  // ---------------------------------------------------------------------------

  /** What a finished subprocess reports, with its output streams decoded. */
  datatype CommandOutput = CommandOutput(code: int, stdout: string, stderr: string)

  /** A blocking subprocess call: executable and argument list in, output record out. */
  type Runner = (string, seq<string>) -> CommandOutput

  /** The error thrown on a non-zero exit: the command's name, its decoded
      standard error, and the arguments it was given, if any. */
  datatype SubprocessError = SubprocessError(name: string, output: string, args: Option<seq<string>>)

  /** The message a `SubprocessError` is raised with: it names the command. */
  function ErrorMessage(e: SubprocessError): (m: string)
    ensures |m| == |e.name| + 42
    ensures m[..41] == "There was an error executing the command "
    ensures m[41..|m| - 1] == e.name && m[|m| - 1] == '.'
  {
    "There was an error executing the command " + e.name + "."
  }

  /** `executeCommand`'s decision on a finished subprocess: a non-zero exit
      code throws a `SubprocessError` carrying the name, the standard error and
      the arguments; exit code 0 returns standard output with the surrounding
      whitespace trimmed. */
  function CommandResult(main: string, args: Option<seq<string>>, out: CommandOutput): (r: Result<string, SubprocessError>)
    ensures r.Failure? <==> out.code != 0
    ensures r.Failure? ==> r.error == SubprocessError(main, out.stderr, args)
    ensures r.Success? ==> NoEdgeWhitespace(r.value) && exists lo :: MiddleOf(out.stdout, r.value, lo)
  {
    if out.code != 0 then Failure(SubprocessError(main, out.stderr, args))
    else Success(Trim(out.stdout))
  }

  /** `executeCommand`: runs `main` with the given arguments and decides on
      the outcome. */
  function ExecuteCommand(run: Runner, main: string, args: Option<seq<string>>): (r: Result<string, SubprocessError>)
    ensures var out := run(main, if args.Some? then args.value else []);
            && (r.Failure? <==> out.code != 0)
            && (r.Failure? ==> r.error == SubprocessError(main, out.stderr, args))
            && (r.Success? ==> r.value == Trim(out.stdout))
  {
    var out := run(main, if args.Some? then args.value else []);
    CommandResult(main, args, out)
  }

  /** The returned output is already trimmed: trimming it again changes nothing. */
  lemma CommandResultTrimmed(main: string, args: Option<seq<string>>, out: CommandOutput)
    requires CommandResult(main, args, out).Success?
    ensures Trim(CommandResult(main, args, out).value) == CommandResult(main, args, out).value
  {
    TrimFixesTrimmed(CommandResult(main, args, out).value);
  }

  // ---------------------------------------------------------------------------
  // Extracting the URL
  // ---------------------------------------------------------------------------

  /** The line the deploy tool prints just before the deployment URL. */
  const Marker: string := "View at:"

  /** The bullet prefix in front of the URL. */
  const Bullet: string := " - "

  /** Reading `replace` on the line at `index`, which is `undefined` because the
      index is past the last line: a `TypeError` in the script. */
  datatype UrlError = UndefinedLine(index: nat)

  /** Line `i` is the first line equal to the marker. */
  predicate FirstMarkerAt(lines: seq<string>, i: int) {
    0 <= i < |lines| && lines[i] == Marker
    && forall j :: 0 <= j < i ==> lines[j] != Marker
  }

  /** The first line equal to the marker is the last line. */
  predicate FirstMarkerIsLast(lines: seq<string>) {
    FirstMarkerAt(lines, |lines| - 1)
  }

  /** `getUrlOutput`: the line after the first line equal to `"View at:"`, with
      its first `" - "` deleted. The URL is a single line; the only failure is
      reading the line one past the last. */
  function GetUrlOutput(deployOutput: string): (r: Result<string, UrlError>)
    ensures r.Success? ==> '\n' !in r.value
    ensures r.Failure? ==> r.error.index == |Split(deployOutput, '\n')|
  {
    var lines := Split(deployOutput, '\n');
    var next := IndexOf(lines, Marker) + 1;
    if next < |lines| then
      RemoveFirstKeepsAbsentChar(lines[next], Bullet, '\n');
      Success(RemoveFirst(lines[next], Bullet))
    else Failure(UndefinedLine(next))
  }

  /** When the first marker line is at `i` and a line follows it, the URL is
      that following line with its first `" - "` deleted. */
  lemma UrlAfterFirstMarker(deployOutput: string, i: nat)
    requires var lines := Split(deployOutput, '\n');
             i + 1 < |lines| && FirstMarkerAt(lines, i)
    ensures GetUrlOutput(deployOutput) == Success(RemoveFirst(Split(deployOutput, '\n')[i + 1], Bullet))
  {
    IndexOfIsFirst(Split(deployOutput, '\n'), Marker, i);
  }

  /** Without any marker line the script does not fail: `indexOf` gives -1 and
      the first line, with its first `" - "` deleted, is taken as the URL. */
  lemma UrlWithoutMarker(deployOutput: string)
    requires Marker !in Split(deployOutput, '\n')
    ensures GetUrlOutput(deployOutput) == Success(RemoveFirst(Split(deployOutput, '\n')[0], Bullet))
  {
  }

  /** A first marker on the last line makes the script read past the end. */
  lemma UrlFailsWhenMarkerLast(deployOutput: string)
    requires FirstMarkerIsLast(Split(deployOutput, '\n'))
    ensures GetUrlOutput(deployOutput).Failure?
  {
    var lines := Split(deployOutput, '\n');
    IndexOfIsFirst(lines, Marker, |lines| - 1);
  }

  /** An `indexOf` result for the marker that leaves no line after it is the last line. */
  lemma MarkerLastFromIndex(lines: seq<string>, i: int)
    requires |lines| >= 1 && -1 <= i < |lines| && |lines| <= i + 1
    requires 0 <= i ==> lines[i] == Marker
    requires forall j :: 0 <= j < i ==> lines[j] != Marker
    ensures FirstMarkerIsLast(lines)
  {
    assert i == |lines| - 1;
  }

  /** A failure only ever comes from a first marker on the last line. */
  lemma UrlFailureMeansMarkerLast(deployOutput: string)
    requires GetUrlOutput(deployOutput).Failure?
    ensures FirstMarkerIsLast(Split(deployOutput, '\n'))
  {
    var lines := Split(deployOutput, '\n');
    var i := IndexOf(lines, Marker);
    assert i + 1 >= |lines|;
    MarkerLastFromIndex(lines, i);
  }

  /** Extraction fails exactly when the first marker line is the last line. */
  lemma UrlFailsIffMarkerLast(deployOutput: string)
    ensures GetUrlOutput(deployOutput).Failure? <==> FirstMarkerIsLast(Split(deployOutput, '\n'))
  {
    var lines := Split(deployOutput, '\n');
    var fails := GetUrlOutput(deployOutput).Failure?;
    var markerLast := FirstMarkerIsLast(lines);
    if markerLast {
      UrlFailsWhenMarkerLast(deployOutput);
      assert fails;
    }
    if fails {
      UrlFailureMeansMarkerLast(deployOutput);
      assert markerLast;
    }
    assert fails <==> markerLast;
  }

  /** Only the first marker counts: the lines after the URL line, including any
      further `"View at:"` lines, never change the result. */
  lemma {:induction false} UrlIgnoresLaterLines(before: seq<string>, url: string, after: seq<string>)
    requires Marker !in before
    requires forall i :: 0 <= i < |before| ==> '\n' !in before[i]
    requires forall i :: 0 <= i < |after| ==> '\n' !in after[i]
    requires '\n' !in url
    ensures GetUrlOutput(Join(before + [Marker, url] + after, '\n')) == Success(RemoveFirst(url, Bullet))
  {
    var lines := before + [Marker, url] + after;
    forall i | 0 <= i < |lines|
      ensures '\n' !in lines[i]
    {
      if i < |before| {
        assert lines[i] == before[i];
      } else if i >= |before| + 2 {
        assert lines[i] == after[i - |before| - 2];
      }
    }
    JoinSplit(lines, '\n');
    assert forall j :: 0 <= j < |before| ==> lines[j] == before[j];
    UrlAfterFirstMarker(Join(lines, '\n'), |before|);
  }

  /** A line that starts with the bullet loses exactly that bullet. */
  lemma LeadingBulletRemoved(url: string)
    ensures RemoveFirst(Bullet + url, Bullet) == url
  {
    var line := Bullet + url;
    assert OccursAt(line, Bullet, 0);
    assert FirstOccurrence(line, Bullet, 0);
    assert line[3..] == url;
  }

  /** The four lines of the example output, joined. */
  lemma ExampleJoin(first: string, url: string, later: string)
    ensures Join([first, Marker, url, later], '\n')
            == first + "\n" + "View at:" + "\n" + url + "\n" + later
  {
    var lines := [first, Marker, url, later];
    assert lines[1..] == [Marker, url, later];
    assert lines[2..] == [url, later];
    assert lines[3..] == [later];
    assert Join(lines[2..], '\n') == url + "\n" + later;
    assert Join(lines[1..], '\n') == Marker + "\n" + (url + "\n" + later);
  }

  /** A typical deploy tool output: the URL follows the marker as a bulleted
      line, and a second, later bulleted URL is ignored. */
  lemma UrlExample()
    ensures GetUrlOutput("Deployed." + "\n" + "View at:" + "\n" + " - " + "https://a.deno.dev"
                         + "\n" + " - " + "https://b.deno.dev")
            == Success("https://a.deno.dev")
  {
    var url := " - " + "https://a.deno.dev";
    var later := " - " + "https://b.deno.dev";
    var text := "Deployed." + "\n" + "View at:" + "\n" + " - " + "https://a.deno.dev"
                + "\n" + " - " + "https://b.deno.dev";
    var lines := ["Deployed.", Marker, url, later];
    ExampleJoin("Deployed.", url, later);
    assert text == Join(lines, '\n');
    assert lines == ["Deployed."] + [Marker, url] + [later];
    UrlIgnoresLaterLines(["Deployed."], url, [later]);
    LeadingBulletRemoved("https://a.deno.dev");
  }

  // ---------------------------------------------------------------------------
  // The script
  // ---------------------------------------------------------------------------

  /** Any way the modelled steps can fail: a non-zero exit of the deploy tool,
      or an output with no line after the first marker. Failures to spawn the
      tool or to write the output file are outside the model. */
  datatype DeployError = Subprocess(failure: SubprocessError) | BadOutput(bad: UrlError)

  /** The script from start to end: resolve the options, run the deploy tool
      with the argument list, extract the URL from its trimmed output, and
      return the text written to the output file. */
  function RunDeploy(parsed: ParsedArgs, run: Runner): (r: Result<string, DeployError>)
    ensures var out := run(DeployTool, DeployArgs(parsed.production == Bool(true)));
            out.code != 0 ==>
              r == Failure(Subprocess(SubprocessError(DeployTool, out.stderr, Some(DeployArgs(parsed.production == Bool(true))))))
    ensures var out := run(DeployTool, DeployArgs(parsed.production == Bool(true)));
            out.code == 0 ==>
              && (r.Success? <==> GetUrlOutput(Trim(out.stdout)).Success?)
              && (r.Failure? ==> r == Failure(BadOutput(GetUrlOutput(Trim(out.stdout)).error)))
    ensures r.Success? ==> |r.value| >= 4 && r.value[..4] == "url=" && '\n' !in r.value[4..]
  {
    var options := GetOptions(parsed);
    var args := DeployArgs(options.production);
    match ExecuteCommand(run, DeployTool, Some(args))
    case Failure(e) => Failure(Subprocess(e))
    case Success(output) =>
      match GetUrlOutput(output)
      case Failure(e) => Failure(BadOutput(e))
      case Success(url) =>
        var line := "url=" + url;
        assert line[4..] == url;
        Success(line)
  }

  /** On a successful deploy whose trimmed output yields `url`, the text
      written to the output file is `url=` followed by that URL. */
  lemma RunDeployWritesUrl(parsed: ParsedArgs, run: Runner, url: string)
    requires var out := run(DeployTool, DeployArgs(parsed.production == Bool(true)));
             out.code == 0 && GetUrlOutput(Trim(out.stdout)) == Success(url)
    ensures RunDeploy(parsed, run) == Success("url=" + url)
  {
  }

  /** The script fails exactly when the deploy tool exits with a non-zero code
      or URL extraction on its trimmed output fails. */
  lemma RunDeployFailsIffExtractionFails(parsed: ParsedArgs, run: Runner)
    ensures var out := run(DeployTool, DeployArgs(parsed.production == Bool(true)));
            RunDeploy(parsed, run).Failure? <==> out.code != 0 || GetUrlOutput(Trim(out.stdout)).Failure?
  {
  }

  /** The script fails exactly when the deploy tool exits with a non-zero code
      or the first `View at:` line is the last line of its trimmed output.
      Because the output is trimmed first, a marker followed only by a final
      newline counts as the last line. */
  lemma RunDeployFailsIff(parsed: ParsedArgs, run: Runner)
    ensures var out := run(DeployTool, DeployArgs(parsed.production == Bool(true)));
            RunDeploy(parsed, run).Failure? <==> out.code != 0 || FirstMarkerIsLast(Split(Trim(out.stdout), '\n'))
  {
    var out := run(DeployTool, DeployArgs(parsed.production == Bool(true)));
    RunDeployFailsIffExtractionFails(parsed, run);
    UrlFailsIffMarkerLast(Trim(out.stdout));
  }
}
