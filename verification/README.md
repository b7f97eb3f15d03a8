# Deploy script model

A Dafny model of `deploy.ts`, the script that deploys the `toriexperiments`
project with the `deployctl` tool. The script:

1. resolves its one option, `production`, to a boolean (`getOptions`);
2. builds the tool's argument list
   `deploy --project=toriexperiments --include=main.ts [--production] main.ts`;
3. runs the tool as a blocking subprocess and either throws a
   `SubprocessError` (non-zero exit) or returns the trimmed standard output
   (`executeCommand`);
4. finds the deployment URL in that output: the line after the first line
   equal to `View at:`, with its first ` - ` deleted (`getUrlOutput`);
5. writes `url=<url>` to `output.txt`.

The model has three modules:

- `Wrappers` (`wrappers.dfy`): `Option` and `Result`. A throwing call
  becomes a `Result`.
- `Text` (`text.dfy`): the JavaScript primitives the script uses, over
  `seq<char>`. These are `split` on a one-character separator (with `Join` as
  its inverse), `Array.prototype.indexOf`, `replace` with a string pattern
  (first occurrence only), and `trim`. The whitespace set for `trim` is
  ECMAScript's WhiteSpace plus LineTerminator, written out.
- `Deploy` (`deploy.dfy`): the script itself. The subprocess is the
  parameter `Runner`, a function from executable and arguments to the record
  `{code, stdout, stderr}`. `RunDeploy` composes the steps and returns the
  text written to the output file.

URL extraction behaves as follows:

- When no line is `View at:`, `indexOf` returns -1, so the script reads line 0
  and does not fail. `UrlWithoutMarker` states this.
- When the first `View at:` line is the last line, the script reads
  `undefined` and `.replace` throws a `TypeError`. The model returns
  `Failure(UndefinedLine(n))` for this case, and `UrlFailsIffMarkerLast`
  proves it is the only failure. Because standard output is trimmed before
  extraction, an output whose only `View at:` line is followed by nothing but a newline reaches this case;
  `RunDeployFailsIff` states when the whole script fails.

## Model

| member | source | states |
|---|---|---|
| `Text.Split` | deploy.ts:64 | splitting on `"\n"` always gives at least one line, and no line contains `"\n"` |
| `Text.SplitJoin` | deploy.ts:64 | joining the lines of a split with `"\n"` gives back the input |
| `Text.SplitCons` | deploy.ts:64 | a newline-free piece followed by a newline splits off as the first line, and the rest splits as before |
| `Text.SplitSingle` | deploy.ts:64 | a string without a newline splits into exactly one line, itself |
| `Text.JoinSplit` | deploy.ts:64 | the reverse round trip: splitting the join of a non-empty list of newline-free lines gives back that list |
| `Text.IndexOf` | deploy.ts:65 | `indexOf` is -1 exactly when the element is absent; otherwise it is a position holding the element, with no earlier occurrence |
| `Text.IndexOfIsFirst` | deploy.ts:65 | any position that holds the element, with no earlier occurrence, is the position `indexOf` returns |
| `Text.ReplaceFirst` | deploy.ts:65 | `replace` with a string pattern returns the string unchanged when the pattern does not occur; otherwise it replaces only the leftmost occurrence |
| `Text.RemoveFirst` | deploy.ts:65 | `replace(" - ", "")` deletes exactly the leftmost occurrence, so the string shrinks by one pattern length; with no occurrence the string is unchanged |
| `Text.RemoveFirstKeepsLater` | deploy.ts:65 | every later, non-overlapping occurrence of the pattern survives the deletion, shifted left by the pattern length |
| `Text.RemoveFirstKeepsAbsentChar` | deploy.ts:65 | deleting the first occurrence cannot introduce a character, so a line without a newline stays without one |
| `Text.TrimStart` | deploy.ts:44 | the result is a suffix of the input; what is dropped is all whitespace; the result does not start with whitespace |
| `Text.TrimEnd` | deploy.ts:44 | the result is a prefix of the input; what is dropped is all whitespace; the result does not end with whitespace |
| `Text.Trim` | deploy.ts:44 | `trim` returns a contiguous slice of the input with whitespace on both sides of it, and the slice has no whitespace at either end |
| `Text.TrimFixesTrimmed` | deploy.ts:44 | a string without whitespace at its ends is its own trim |
| `Text.TrimIdempotent` | deploy.ts:44 | trimming the returned output a second time changes nothing |
| `Deploy.NormaliseProduction` | deploy.ts:50-52 | after normalisation `production` is a boolean, and it is `true` exactly when the parser produced `true` |
| `Deploy.NormaliseProductionKeepsBooleans` | deploy.ts:50-52 | a boolean value is left as it was, so normalising twice equals normalising once |
| `Deploy.GetOptions` | deploy.ts:47-55 | the resolved `production` option is `true` exactly when the parsed value was `true`; positional arguments pass through unchanged |
| `Deploy.DeployArgs` | deploy.ts:71-81 | the list starts with `deploy`, `--project=toriexperiments` and `--include=main.ts`, and ends with `main.ts`; it holds `--production` exactly when the option is set, placed right before `main.ts`; it has 5 elements with the option and 4 without |
| `Deploy.DeployArgsInjective` | deploy.ts:71-81 | the argument list determines the `production` setting |
| `Deploy.ErrorMessage` | deploy.ts:16-23 | the error message is the fixed sentence with the command's name inserted before the final period |
| `Deploy.CommandResult` | deploy.ts:40-44 | a non-zero exit code, and only that, gives a `SubprocessError` carrying the command name, its stderr and its arguments; exit code 0 gives stdout trimmed, a whitespace-free-edged slice of stdout |
| `Deploy.ExecuteCommand` | deploy.ts:35-45 | running the command fails exactly when its exit code is non-zero, with the payload above; otherwise it returns the trimmed stdout |
| `Deploy.CommandResultTrimmed` | deploy.ts:44 | the returned output is already trimmed, so trimming it again changes nothing |
| `Deploy.GetUrlOutput` | deploy.ts:63-68 | an extracted URL contains no newline; a failure reports the index one past the last line |
| `Deploy.UrlAfterFirstMarker` | deploy.ts:64-65 | when the first `View at:` line is at index i and line i+1 exists, the URL is line i+1 with its first ` - ` deleted |
| `Deploy.UrlWithoutMarker` | deploy.ts:65 | with no `View at:` line, the result is line 0 with its first ` - ` deleted, not an error |
| `Deploy.UrlFailsWhenMarkerLast` | deploy.ts:65 | when the first `View at:` line is the last line, extraction fails |
| `Deploy.UrlFailureMeansMarkerLast` | deploy.ts:65 | extraction fails only when the first `View at:` line is the last line |
| `Deploy.UrlFailsIffMarkerLast` | deploy.ts:65 | extraction fails if and only if the first `View at:` line is the last line |
| `Deploy.UrlIgnoresLaterLines` | deploy.ts:64-65 | only the first marker counts: any lines after the URL line, including further `View at:` lines, leave the result unchanged |
| `Deploy.LeadingBulletRemoved` | deploy.ts:65 | a line of the form ` - <url>` yields exactly `<url>` |
| `Deploy.UrlExample` | deploy.ts:63-68 | on a typical output with two bulleted URLs after the marker, the result is the first URL without its bullet |
| `Deploy.RunDeploy` | deploy.ts:70-88 | a non-zero exit from `deployctl` gives a `SubprocessError` carrying the exact argument list built from the option; after exit code 0 the script succeeds exactly when URL extraction on the trimmed output succeeds, and otherwise fails with that extraction's error; success gives one line beginning with `url=` |
| `Deploy.RunDeployFailsIffExtractionFails` | deploy.ts:83-84 | the script fails if and only if the tool exits non-zero or URL extraction on the trimmed output fails |
| `Deploy.RunDeployFailsIff` | deploy.ts:83-84 | the script fails if and only if the tool exits non-zero or the first `View at:` line is the last line of the trimmed output |
| `Deploy.RunDeployWritesUrl` | deploy.ts:83-88 | when the tool exits with 0 and its trimmed output yields a URL, the file text is `url=` followed by that URL |

## Left out

- `main.ts`: an HTTP handler that logs each request and returns a fixed JSON body. It is I/O with no logic to verify.
- Spawning the subprocess (`Deno.Command`, `outputSync`, `initExecuteCommand`): the `Runner` parameter replaces it. A `Runner` always returns an output record, so the errors `outputSync` throws when the tool cannot be started (deploy.ts:38) are not modelled.
- UTF-8 decoding with `TextDecoder`: stdout and stderr are taken as already-decoded strings.
- The flag parser `parse`: only the value it yields for `production` and the positional arguments are modelled, as `FlagValue` and `ParsedArgs`.
- `console.info(output)` and `Deno.writeTextFileSync`: `RunDeploy` returns the text that would be written and prints nothing, so a failing write (deploy.ts:88) is not modelled.
- `$`-patterns in `replace`: the replacement is taken literally. JavaScript expands `$`-patterns in a replacement string, but the script passes only `""`.
- Later Unicode versions: for `trim`, the Unicode space separators are fixed as of Unicode 15 and will not track later Unicode versions.
- The kinds of non-boolean flag values: every value the parser can yield (strings, numbers, arrays) collapse into `NonBool`, because `getOptions` treats them all alike.
