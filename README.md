# Solsta deployment task

A model of the `SolstaDeploy` build-graph task. This task runs Solsta's
`release_deploy` tool for a build node.

The task projects its parameter record onto an argument list:

- seven tokens that are always emitted;
- then up to nine optional tokens, each appended when its parameter is set.

The source path is normalised to end in exactly one directory separator. The
exclude pattern is wrapped in double quotes. The argument list is joined by
single spaces into the tool's command line.

If the tool exits with a non-zero code, the task fails with that code. If it
exits with zero, the task adds the console credentials file to the node's set
of build products.

Layout:

- `wrappers.dfy`: `Option` (the nullable references of the C# task) and `Outcome`.
- `text.dfy`: `TrimEnd`; `Join`; `Split`, which undoes `Join` on non-empty lists of parts free of the separator; and the `key=value` tokens with their keys.
- `selection.dfy`: selecting elements of a sequence by a boolean mask. A run of conditional appends builds exactly this shape.
- `decimal.dfy`: the decimal text of an `int`, and the parser that reads it back.
- `parameters.dfy`: the parameter record.
- `arguments.dfy`: the argument list as a function (`Arguments`), and the method that builds it by appending (`BuildArguments`).
- `properties.dfy`: what the argument list promises.
- `deploy.dfy`: the task class, its `ExecuteAsync`, exit-code handling and the set of build products.

`ExecuteAsync` is split in two:

- `BuildArguments` holds its list-building part (lines 259-313);
- the method `SolstaDeploy.SolstaDeployTask.ExecuteAsync` calls it, then joins the list, computes the executable path, looks at the exit code and updates the set of build products.

Each `if (...) Arguments.Add(...)` of the C# task is one call of `AddWhen`. That method's body is the conditional append.

Three values come into the model as inputs:

- the exit code of the tool is a parameter of `ExecuteAsync`;
- the directory separator is a parameter (`sep`) of every function that needs it;
- directory and file references stand for their full names.

`BuildProducts` is a `HashSet<FileReference>`; line 326 calls `BuildProducts.Add`, which leaves a set that already holds the file unchanged. The model follows the code, so on success the set grows by at most one entry, not by exactly one. A statement that exactly one new entry appears would not match the code.

Nullable strings are `Option<string>`. Interpolating `null` into a string contributes nothing, which is what `Interpolate` models. The optional tokens for the version, the exclude pattern and the log path are built with `Interpolate`, and they are only appended when the field is set. So the token is the same as the one the C# task builds.

## Model

| member | source | states |
|---|---|---|
| SolstaParameters.Parameters | SolstaTask.cs:16-226 | definition: the parameter record, one field per property; UnprojectedFieldsIgnored states which fields the argument list depends on |
| SolstaArguments.FixedTokens | SolstaTask.cs:261-267 | definition: the seven tokens of the initializer; FixedTokensFirst, SourceToken and RequestsToken state their keys, order and values |
| SolstaArguments.Enabled | SolstaTask.cs:270-310 | definition: the nine `if` conditions (lines 270, 275, 280, 285, 290, 295, 300, 305 and 310); OptionPresentIffSet, OptionTokenPresentIffSet and FlagPresentIffSet state that a token is present exactly when its condition holds |
| SolstaArguments.OptionalTokens | SolstaTask.cs:272-312 | definition: the nine tokens the conditional `Add` calls append; TokenOfKey, ExcludeTokenText and ExcludeQuoted state their text |
| SolstaArguments.Arguments | SolstaTask.cs:259-313 | definition: the seven fixed tokens followed by the optional tokens whose conditions hold; its properties are proved by FixedTokensFirst, ArgumentKeys, OptionPresentIffSet, OptionsInOrder, ArgumentKeysDistinct, TokenOfKey, OptionTokenPresentIffSet and ExcludeQuoted |
| SolstaArguments.CommandLine | SolstaTask.cs:315 | definition: the arguments joined by single spaces; CommandLineSplitsBack and UnprojectedFieldsIgnored state its properties |
| SolstaArguments.IsNullOrEmpty | SolstaTask.cs:270 | definition of `String.IsNullOrEmpty` (also used at line 285): null or the empty string; OptionTokenPresentIffSet and ExcludeQuoted state what it decides |
| SolstaArguments.Interpolate | SolstaTask.cs:263-265 | definition: an interpolated null contributes nothing (also at lines 272 and 312); FixedTokensFirst and ExcludeTokenText state the tokens built with it |
| SolstaArguments.AddWhen | SolstaTask.cs:270-313 | one `if (...) Arguments.Add(...)`: the list gains the token at its end when the condition holds and is unchanged otherwise |
| SolstaArguments.FixedArguments | SolstaTask.cs:259-268 | the initializer's seven tokens equal the specification `FixedTokens(p, sep)` |
| Text.Join | SolstaTask.cs:315 | definition of `String.Join`; SplitJoin and JoinSplit relate it to Split |
| SolstaDeploy.Deploy | SolstaTask.cs:320-326 | definition: a non-zero code fails with that code and keeps the products, zero adds the credentials file; FailureKeepsProducts, SuccessAddsCredentials and SuccessIdempotent state its properties |
| SolstaDeploy.DeployError.Message | SolstaTask.cs:322 | definition of the exception text; MessageCarriesExitCode states that it carries the exit code |
| SolstaDeploy.ExecutablePath | SolstaTask.cs:319 | the executable path starts with the build tools directory (when it is not empty) and ends in `release_deploy.exe`; for any separator that is not a letter of `release_deploy` (so for `/` and `\`) it is the tools directory, a separator unless the directory already ends in one (none when the directory is empty), `release_deploy`, the separator and `release_deploy.exe` |
| SolstaArguments.BuildArguments | SolstaTask.cs:259-313 | the list built by the seven initial tokens and the nine conditional appends equals the specification `Arguments(p, sep)` |
| SolstaArguments.NormalizeSource | SolstaTask.cs:266 | the normalised source path ends in the separator, has no second separator before it, keeps the path's prefix and drops only trailing separators |
| SolstaArguments.Quoted | SolstaTask.cs:285-288 | the quoted text is the pattern with one double quote before and one after |
| SolstaArgumentProperties.FixedTokensFirst | SolstaTask.cs:259-268 | the first seven tokens are the fixed ones with keys `--console_directory` … `--requests` in that order, whichever options are set, and the list has 7 plus the number of set options tokens |
| SolstaArgumentProperties.ArgumentKeys | SolstaTask.cs:259-313 | the keys of the list are the seven fixed keys followed by the keys of exactly the set options, in their fixed order |
| SolstaArgumentProperties.OptionPresentIffSet | SolstaTask.cs:270-313 | an optional key occurs in the list if and only if its parameter is set, and only after the seven fixed tokens |
| SolstaArgumentProperties.OptionsInOrder | SolstaTask.cs:270-313 | two optional tokens appear in the order `--version`, `--sync_attributes`, `--sync_timestamps`, `--exclude`, `--autocreate`, `--config_print`, `--debug`, `--debug_network`, `--log_path` |
| SolstaArgumentProperties.ArgumentKeysDistinct | SolstaTask.cs:259-313 | no key occurs twice in the list |
| SolstaArgumentProperties.TokenOfKey | SolstaTask.cs:270-313 | a token with an optional key is exactly that option's token, and its parameter is set |
| SolstaArgumentProperties.OptionTokenPresentIffSet | SolstaTask.cs:270-313 | an option's token is in the list if and only if its parameter is set (version and exclude non-null and non-empty, flags true, log path non-null) |
| SolstaArgumentProperties.FlagPresentIffSet | SolstaTask.cs:275-308 | a bare flag is in the list if and only if its boolean parameter is true |
| SolstaArgumentProperties.DebugNetworkWithoutDebug | SolstaTask.cs:300-308 | with debug off and network debugging on, the list holds `--debug_network` and not `--debug` |
| SolstaArgumentProperties.ExcludeQuoted | SolstaTask.cs:285-288 | a non-empty exclude pattern gives the single token `--exclude="pattern"`, every token with the exclude key is that one, and none exists otherwise |
| SolstaArgumentProperties.ExcludeTokenText | SolstaTask.cs:287 | the exclude token's text is `--exclude="` followed by the pattern and a closing quote |
| SolstaArgumentProperties.UnprojectedFieldsIgnored | SolstaTask.cs:16-226 | parameters that agree on the sixteen projected fields give the same list and the same command line, whatever the other fields hold |
| SolstaArgumentProperties.CommandLineSplitsBack | SolstaTask.cs:315 | splitting the command line at spaces gives back the argument list if and only if no token contains a space |
| SolstaArgumentProperties.SourceToken | SolstaTask.cs:266 | the sixth token is the `--source` setting holding the normalised source path |
| SolstaArgumentProperties.RequestsToken | SolstaTask.cs:267 | the seventh token is the `--requests` setting, and its value reads back as the request count |
| SolstaArgumentProperties.NormalizeSourceIgnoresAppended | SolstaTask.cs:266 | appending any number of separators to the source path does not change its normal form |
| SolstaArgumentProperties.NormalizeSourceIdempotent | SolstaTask.cs:266 | normalising a normalised path changes nothing |
| SolstaArgumentProperties.NormalizeSourceFixedPoints | SolstaTask.cs:266 | a path is its own normal form if and only if it ends in exactly one separator |
| Text.TrimEnd | SolstaTask.cs:266 | the trimmed text is the longest prefix that does not end in the character, and only copies of it are removed |
| Text.TrimEndIgnoresAppended | SolstaTask.cs:266 | trailing copies of the character appended before trimming make no difference |
| Text.Split | SolstaTask.cs:315 | splitting gives at least one piece, and no piece holds the separator |
| Text.SplitJoin | SolstaTask.cs:315 | splitting the joined parts gives the parts back when the list is non-empty and no part holds the separator |
| Text.JoinSplit | SolstaTask.cs:315 | joining the pieces of a split gives the string back |
| Text.KeyOfSetting | SolstaTask.cs:260-267 | the key of a `key=value` token is the key when the key holds no `=` |
| Decimal.IntToString | SolstaTask.cs:267 | the decimal text of an integer is non-empty, starts with `-` exactly when the integer is negative, is digits otherwise, and has no leading zero (neither at the start nor right after the `-`) |
| Decimal.ParseIntToString | SolstaTask.cs:267 | the decimal text of an integer reads back as that integer |
| Decimal.IntToStringInjective | SolstaTask.cs:267 | different request counts give different texts |
| Selection.AppendSelectedIsConcat | SolstaTask.cs:270-313 | growing a list by conditional appends gives the list followed by the selected elements |
| Selection.SelectHas | SolstaTask.cs:270-313 | among distinct candidates, a candidate is selected if and only if its condition holds |
| Selection.SelectOrdered | SolstaTask.cs:270-313 | selection keeps the candidates' order |
| Selection.SelectDistinct | SolstaTask.cs:270-313 | selection from distinct candidates has no element twice |
| Selection.PrefixSelectHas | SolstaTask.cs:259-313 | after a prefix holding none of the candidates, a candidate occurs if and only if it is selected, and only past the prefix |
| Selection.PrefixSelectOrdered | SolstaTask.cs:259-313 | past such a prefix, the selected candidates keep their order |
| Selection.PrefixSelectDistinct | SolstaTask.cs:259-313 | a distinct prefix followed by a selection of other candidates has no element twice |
| SolstaDeploy.FailureKeepsProducts | SolstaTask.cs:320-323 | a non-zero exit code fails with that code and leaves the build products as they were |
| SolstaDeploy.SuccessAddsCredentials | SolstaTask.cs:326 | exit code zero succeeds, and only the credentials file is added; the set grows by one unless it already held it |
| SolstaDeploy.SuccessIdempotent | SolstaTask.cs:326 | a second successful run adds nothing more |
| SolstaDeploy.MessageCarriesExitCode | SolstaTask.cs:322 | the failure message starts with its fixed text and ends in the exit code, which reads back |
| SolstaDeploy.CombinePath | SolstaTask.cs:319 | the combined path starts with the directory and ends with the name, with one separator between them unless the directory already ends in one |
| SolstaDeploy.BuildProductSet.Add | SolstaTask.cs:326 | adding a file leaves the set as it was plus that file |
| SolstaDeploy.SolstaDeployTask.constructor | SolstaTask.cs:245-248 | the task keeps the parameters it is given |
| SolstaDeploy.SolstaDeployTask.ExecuteAsync | SolstaTask.cs:257-329 | returns the executable under the build tools directory and the command line `CommandLine(parameters, sep)`; the outcome and the new set of products are those of `Deploy` on the old set and the exit code |

## Left out

- Running the tool (SolstaTask.cs:331-367: process start, the output and error callbacks, waiting for exit) is not modelled. Its exit code is the `exitCode` parameter of `ExecuteAsync`.
- The log calls (SolstaTask.cs:316, 349, 357) only write to a log, so they are not modelled.
- `Write(XmlWriter)` (SolstaTask.cs:373-376) is left out. It is serialisation done by a base class that is not part of this model.
- `FindConsumedTagNames` and `FindProducedTagNames` (SolstaTask.cs:382-394) are left out. They call tag-name finders of the build-graph library, which is not part of this model.
- The `Job` and `TagNameToFileSet` arguments of `ExecuteAsync` are not modelled, because the method never reads them.
- SolstaDeploy.CombinePath: models `Path.Combine` for the two relative names the task joins, with `sep` as the only separator. It does not model the alternative separator, volume separators or rooted names.
- `FullName` is not modelled: directory and file references stand for their full names as strings.
- `FileReference` equality is not modelled. The set of build products compares names exactly, whereas file references compare case-insensitively on some platforms.
- Decimal.IntToString: writes `int` values the invariant way (a `-` and digits). Culture-specific number formatting is not modelled.
- The command line is modelled as text. How the operating system's command-line parser reads it back is not modelled: the quotes around the exclude pattern, and the splitting of an unquoted value that contains a space. CommandLineSplitsBack only states when a plain split at spaces recovers the list.
- Validation of required parameters by the task framework is not modelled, and neither is the asynchronous `Task` returned. A missing required reference in the model is simply whatever string the field holds.
