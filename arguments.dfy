/** The projection of the parameter record onto the argument list of the
    release_deploy tool, and the command line that joins it. */
module SolstaArguments {
  import opened Wrappers
  import opened Text
  import opened Selection
  import opened Decimal
  import opened SolstaParameters

  /** String.IsNullOrEmpty. */
  predicate IsNullOrEmpty(s: Option<string>) {
    s == None || s == Some("")
  }

  /** What an interpolated nullable string contributes: nothing for null. */
  function Interpolate(s: Option<string>): string {
    s.GetOr("")
  }

  /** The source path with all trailing separators trimmed and one appended. */
  function NormalizeSource(path: string, sep: char): (r: string)
    ensures 1 <= |r| <= |path| + 1 && r[|r| - 1] == sep
    ensures |r| == 1 || r[|r| - 2] != sep
    ensures r[..|r| - 1] == path[..|r| - 1] && AllChar(path[|r| - 1..], sep)
  {
    TrimEnd(path, sep) + [sep]
  }

  // The keys of the tokens, and the bare flags, as the tool spells them.
  const ConsoleDirectoryKey: string := "--console_directory"
  const ConsoleCredentialsKey: string := "--console_credentials"
  const ProductNameKey: string := "--product_name"
  const EnvNameKey: string := "--env_name"
  const RepositoryNameKey: string := "--repository_name"
  const SourceKey: string := "--source"
  const RequestsKey: string := "--requests"
  const VersionKey: string := "--version"
  const SyncAttributesFlag: string := "--sync_attributes"
  const SyncTimestampsFlag: string := "--sync_timestamps"
  const ExcludeKey: string := "--exclude"
  const AutoCreateFlag: string := "--autocreate"
  const ConfigPrintFlag: string := "--config_print"
  const DebugFlag: string := "--debug"
  const DebugNetworkFlag: string := "--debug_network"
  const LogPathKey: string := "--log_path"

  /** The keys of the seven tokens that are always emitted, in order. */
  const FixedKeys: seq<string> := [
    ConsoleDirectoryKey, ConsoleCredentialsKey, ProductNameKey, EnvNameKey,
    RepositoryNameKey, SourceKey, RequestsKey]

  /** The keys of the nine optional tokens, in the order they are appended. */
  const OptionalKeys: seq<string> := [
    VersionKey, SyncAttributesFlag, SyncTimestampsFlag, ExcludeKey, AutoCreateFlag,
    ConfigPrintFlag, DebugFlag, DebugNetworkFlag, LogPathKey]

  /** Which of the nine optional tokens the parameters ask for, in the order of OptionalKeys. */
  function Enabled(p: Parameters): seq<bool> {
    [ !IsNullOrEmpty(p.version), p.syncAttributes, p.syncTimestamps, !IsNullOrEmpty(p.exclude),
      p.autoCreate, p.configPrint, p.debug, p.debugNetwork, p.logPath.Some? ]
  }

  /** The seven tokens that are always emitted. */
  function FixedTokens(p: Parameters, sep: char): seq<string> {
    [ Setting(ConsoleDirectoryKey, p.consoleDirectory),
      Setting(ConsoleCredentialsKey, p.consoleCredentials),
      Setting(ProductNameKey, Interpolate(p.productName)),
      Setting(EnvNameKey, Interpolate(p.envName)),
      Setting(RepositoryNameKey, Interpolate(p.repositoryName)),
      Setting(SourceKey, NormalizeSource(p.source, sep)),
      Setting(RequestsKey, IntToString(p.requests as int)) ]
  }

  /** `s` between double quotes. */
  function Quoted(s: string): (r: string)
    ensures |r| == |s| + 2 && r[0] == '"' && r[|r| - 1] == '"' && r[1..|r| - 1] == s
  {
    "\"" + s + "\""
  }

  /** The nine optional tokens, in the order they are appended. */
  function OptionalTokens(p: Parameters): seq<string> {
    [ Setting(VersionKey, Interpolate(p.version)), SyncAttributesFlag, SyncTimestampsFlag,
      Setting(ExcludeKey, Quoted(Interpolate(p.exclude))), AutoCreateFlag, ConfigPrintFlag,
      DebugFlag, DebugNetworkFlag, Setting(LogPathKey, Interpolate(p.logPath)) ]
  }

  /** The argument list handed to the tool: the fixed tokens, then the optional
      tokens whose parameters are set. */
  function Arguments(p: Parameters, sep: char): seq<string> {
    FixedTokens(p, sep) + Select(OptionalTokens(p), Enabled(p))
  }

  /** The command line: the arguments joined by single spaces. */
  function CommandLine(p: Parameters, sep: char): string {
    Join(Arguments(p, sep), ' ')
  }

  /** The optional tokens appended to `fixed`, written out one after the other. */
  lemma AppendedOptions(p: Parameters, fixed: seq<string>)
    ensures fixed + Select(OptionalTokens(p), Enabled(p))
      == fixed
         + Chosen(!IsNullOrEmpty(p.version), Setting(VersionKey, Interpolate(p.version)))
         + Chosen(p.syncAttributes, SyncAttributesFlag)
         + Chosen(p.syncTimestamps, SyncTimestampsFlag)
         + Chosen(!IsNullOrEmpty(p.exclude), Setting(ExcludeKey, Quoted(Interpolate(p.exclude))))
         + Chosen(p.autoCreate, AutoCreateFlag)
         + Chosen(p.configPrint, ConfigPrintFlag)
         + Chosen(p.debug, DebugFlag)
         + Chosen(p.debugNetwork, DebugNetworkFlag)
         + Chosen(p.logPath.Some?, Setting(LogPathKey, Interpolate(p.logPath)))
  {
    AppendSelectedNine(fixed, OptionalTokens(p), Enabled(p));
    AppendSelectedIsConcat(fixed, OptionalTokens(p), Enabled(p));
  }

  /** One conditional `Add` onto the argument list. */
  method AddWhen(arguments: seq<string>, condition: bool, token: string) returns (r: seq<string>)
    ensures r == arguments + Chosen(condition, token)
  {
    r := arguments;
    if condition {
      r := r + [token];
    }
  }

  /** The seven tokens the argument list starts with. */
  method FixedArguments(p: Parameters, sep: char) returns (arguments: seq<string>)
    ensures arguments == FixedTokens(p, sep)
  {
    arguments := [
      Setting(ConsoleDirectoryKey, p.consoleDirectory),
      Setting(ConsoleCredentialsKey, p.consoleCredentials),
      Setting(ProductNameKey, Interpolate(p.productName)),
      Setting(EnvNameKey, Interpolate(p.envName)),
      Setting(RepositoryNameKey, Interpolate(p.repositoryName)),
      Setting(SourceKey, TrimEnd(p.source, sep) + [sep]),
      Setting(RequestsKey, IntToString(p.requests as int))];
  }

  /** The argument list built by appending to a list, as SolstaDeployTask.ExecuteAsync does. */
  method BuildArguments(p: Parameters, sep: char) returns (arguments: seq<string>)
    ensures arguments == Arguments(p, sep)
  {
    arguments := FixedArguments(p, sep);
    ghost var fixed := arguments;
    arguments := AddWhen(arguments, !IsNullOrEmpty(p.version), Setting(VersionKey, Interpolate(p.version)));
    arguments := AddWhen(arguments, p.syncAttributes, SyncAttributesFlag);
    arguments := AddWhen(arguments, p.syncTimestamps, SyncTimestampsFlag);
    arguments := AddWhen(arguments, !IsNullOrEmpty(p.exclude), Setting(ExcludeKey, Quoted(Interpolate(p.exclude))));
    arguments := AddWhen(arguments, p.autoCreate, AutoCreateFlag);
    arguments := AddWhen(arguments, p.configPrint, ConfigPrintFlag);
    arguments := AddWhen(arguments, p.debug, DebugFlag);
    arguments := AddWhen(arguments, p.debugNetwork, DebugNetworkFlag);
    arguments := AddWhen(arguments, p.logPath.Some?, Setting(LogPathKey, Interpolate(p.logPath)));
    AppendedOptions(p, fixed);
  }
}
