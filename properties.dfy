/** What the argument list promises: the fixed prefix, the optional tokens
    present exactly when their parameters are set and in their fixed order,
    the quoted exclude pattern, the normalised source path and the command
    line that splits back into the list. */
module SolstaArgumentProperties {
  import opened Wrappers
  import opened Text
  import opened Selection
  import opened Decimal
  import opened SolstaParameters
  import opened SolstaArguments

  /** Taking keys commutes with selection. */
  lemma {:induction false} KeysSelect(tokens: seq<string>, mask: seq<bool>)
    requires |mask| == |tokens|
    ensures Keys(Select(tokens, mask)) == Select(Keys(tokens), mask)
  {
    if tokens != [] {
      KeysAppend(Chosen(mask[0], tokens[0]), Select(tokens[1..], mask[1..]));
      assert Keys(tokens)[1..] == Keys(tokens[1..]);
      KeysSelect(tokens[1..], mask[1..]);
    }
  }

  /** No fixed key holds `=`, so each fixed token's key is read back whole. */
  lemma FixedKeysFree()
    ensures '=' !in ConsoleDirectoryKey && '=' !in ConsoleCredentialsKey && '=' !in ProductNameKey
    ensures '=' !in EnvNameKey && '=' !in RepositoryNameKey && '=' !in SourceKey && '=' !in RequestsKey
  {
  }

  /** Neither do the keys of the optional settings. */
  lemma SettingKeysFree()
    ensures '=' !in VersionKey && '=' !in ExcludeKey && '=' !in LogPathKey
  {
  }

  /** Nor the bare flags. */
  lemma FlagsFree()
    ensures '=' !in SyncAttributesFlag && '=' !in SyncTimestampsFlag && '=' !in AutoCreateFlag
    ensures '=' !in ConfigPrintFlag && '=' !in DebugFlag && '=' !in DebugNetworkFlag
  {
  }

  /** The sixteen keys are pairwise different. */
  lemma KeysDistinct()
    ensures Distinct(FixedKeys) && Distinct(OptionalKeys)
    ensures forall i | 0 <= i < |OptionalKeys| :: OptionalKeys[i] !in FixedKeys
  {
  }

  /** The keys of seven settings with the fixed keys, whatever their values. */
  lemma KeysOfFixed(v0: string, v1: string, v2: string, v3: string, v4: string, v5: string, v6: string)
    ensures Keys([Setting(ConsoleDirectoryKey, v0), Setting(ConsoleCredentialsKey, v1),
      Setting(ProductNameKey, v2), Setting(EnvNameKey, v3), Setting(RepositoryNameKey, v4),
      Setting(SourceKey, v5), Setting(RequestsKey, v6)]) == FixedKeys
  {
    FixedKeysFree();
    KeyOfSetting(ConsoleDirectoryKey, v0);
    KeyOfSetting(ConsoleCredentialsKey, v1);
    KeyOfSetting(ProductNameKey, v2);
    KeyOfSetting(EnvNameKey, v3);
    KeyOfSetting(RepositoryNameKey, v4);
    KeyOfSetting(SourceKey, v5);
    KeyOfSetting(RequestsKey, v6);
  }

  /** The keys of nine tokens, one by one. */
  lemma KeysOfNine(t0: string, t1: string, t2: string, t3: string, t4: string, t5: string,
                   t6: string, t7: string, t8: string, k0: string, k1: string, k2: string,
                   k3: string, k4: string, k5: string, k6: string, k7: string, k8: string)
    requires KeyOf(t0) == k0 && KeyOf(t1) == k1 && KeyOf(t2) == k2 && KeyOf(t3) == k3
    requires KeyOf(t4) == k4 && KeyOf(t5) == k5 && KeyOf(t6) == k6 && KeyOf(t7) == k7
    requires KeyOf(t8) == k8
    ensures Keys([t0, t1, t2, t3, t4, t5, t6, t7, t8]) == [k0, k1, k2, k3, k4, k5, k6, k7, k8]
  {
  }

  /** The keys of the optional tokens, whatever the values of the three settings. */
  lemma KeysOfOptional(v0: string, v3: string, v8: string)
    ensures Keys([Setting(VersionKey, v0), SyncAttributesFlag, SyncTimestampsFlag,
      Setting(ExcludeKey, v3), AutoCreateFlag, ConfigPrintFlag, DebugFlag, DebugNetworkFlag,
      Setting(LogPathKey, v8)]) == OptionalKeys
  {
    SettingKeysFree();
    FlagsFree();
    KeyOfSetting(VersionKey, v0);
    KeyOfSetting(ExcludeKey, v3);
    KeyOfSetting(LogPathKey, v8);
    KeyOfFlag(SyncAttributesFlag);
    KeyOfFlag(SyncTimestampsFlag);
    KeyOfFlag(AutoCreateFlag);
    KeyOfFlag(ConfigPrintFlag);
    KeyOfFlag(DebugFlag);
    KeyOfFlag(DebugNetworkFlag);
    KeysOfNine(Setting(VersionKey, v0), SyncAttributesFlag, SyncTimestampsFlag,
      Setting(ExcludeKey, v3), AutoCreateFlag, ConfigPrintFlag, DebugFlag, DebugNetworkFlag,
      Setting(LogPathKey, v8), VersionKey, SyncAttributesFlag, SyncTimestampsFlag, ExcludeKey,
      AutoCreateFlag, ConfigPrintFlag, DebugFlag, DebugNetworkFlag, LogPathKey);
  }

  /** The keys of the argument list: the seven fixed keys, then the keys of the
      options that are set, in the order of OptionalKeys. */
  lemma ArgumentKeys(p: Parameters, sep: char)
    ensures Keys(Arguments(p, sep)) == FixedKeys + Select(OptionalKeys, Enabled(p))
  {
    KeysOfFixed(p.consoleDirectory, p.consoleCredentials, Interpolate(p.productName),
      Interpolate(p.envName), Interpolate(p.repositoryName), NormalizeSource(p.source, sep),
      IntToString(p.requests as int));
    KeysOfOptional(Interpolate(p.version), Quoted(Interpolate(p.exclude)), Interpolate(p.logPath));
    KeysSelect(OptionalTokens(p), Enabled(p));
    KeysAppend(FixedTokens(p, sep), Select(OptionalTokens(p), Enabled(p)));
  }

  /** The first seven tokens are the fixed ones, in their fixed order, whichever
      options are set; the list holds one more token per option that is set. */
  lemma FixedTokensFirst(p: Parameters, sep: char)
    ensures |Arguments(p, sep)| == 7 + CountTrue(Enabled(p))
    ensures Arguments(p, sep)[..7] == FixedTokens(p, sep)
    ensures Keys(Arguments(p, sep))[..7] == FixedKeys
  {
    ArgumentKeys(p, sep);
    assert (FixedKeys + Select(OptionalKeys, Enabled(p)))[..7] == FixedKeys;
  }

  /** An optional key occurs among the tokens exactly when its parameter is set,
      and only after the seven fixed tokens. */
  lemma OptionPresentIffSet(p: Parameters, sep: char, i: nat)
    requires i < 9
    ensures OptionalKeys[i] in Keys(Arguments(p, sep)) <==> Enabled(p)[i]
    ensures forall a | 0 <= a < |Arguments(p, sep)| && KeyOf(Arguments(p, sep)[a]) == OptionalKeys[i] :: 7 <= a
  {
    ArgumentKeys(p, sep);
    KeysDistinct();
    PrefixSelectHas(FixedKeys, OptionalKeys, Enabled(p), i);
  }

  /** Optional tokens come in the order of OptionalKeys. */
  lemma OptionsInOrder(p: Parameters, sep: char, a: nat, b: nat, i: nat, j: nat)
    requires a < b < |Arguments(p, sep)| && i < 9 && j < 9
    requires KeyOf(Arguments(p, sep)[a]) == OptionalKeys[i]
    requires KeyOf(Arguments(p, sep)[b]) == OptionalKeys[j]
    ensures 7 <= a && i < j
  {
    ArgumentKeys(p, sep);
    KeysDistinct();
    PrefixSelectOrdered(FixedKeys, OptionalKeys, Enabled(p), a, b, i, j);
  }

  /** No key occurs twice in the argument list. */
  lemma ArgumentKeysDistinct(p: Parameters, sep: char)
    ensures Distinct(Keys(Arguments(p, sep)))
  {
    ArgumentKeys(p, sep);
    KeysDistinct();
    PrefixSelectDistinct(FixedKeys, OptionalKeys, Enabled(p));
  }

  /** The token carrying an optional key is that option's token. */
  lemma TokenOfKey(p: Parameters, sep: char, a: nat, i: nat)
    requires a < |Arguments(p, sep)| && i < 9
    requires KeyOf(Arguments(p, sep)[a]) == OptionalKeys[i]
    ensures Enabled(p)[i] && Arguments(p, sep)[a] == OptionalTokens(p)[i]
  {
    var args, mask, opts := Arguments(p, sep), Enabled(p), OptionalTokens(p);
    ArgumentKeys(p, sep);
    KeysDistinct();
    PrefixSelectHas(FixedKeys, OptionalKeys, mask, i);
    KeysOfOptional(Interpolate(p.version), Quoted(Interpolate(p.exclude)), Interpolate(p.logPath));
    SelectPaired(opts, OptionalKeys, mask, a - 7);
    var j :| 0 <= j < 9 && mask[j] && Select(opts, mask)[a - 7] == opts[j]
      && Select(OptionalKeys, mask)[a - 7] == OptionalKeys[j];
    assert args[a] == Select(opts, mask)[a - 7];
    assert Keys(args)[a] == OptionalKeys[j];
    assert OptionalKeys[j] == OptionalKeys[i];
    assert i == j;
  }

  /** The token of an optional flag is the flag itself. */
  lemma FlagToken(p: Parameters, i: nat)
    requires i == 1 || i == 2 || i == 4 || i == 5 || i == 6 || i == 7
    ensures OptionalTokens(p)[i] == OptionalKeys[i]
  {
  }

  /** Every token with the key of option `i` is that option's token. */
  lemma TokensOfKey(p: Parameters, sep: char, i: nat)
    requires i < 9
    ensures forall a | 0 <= a < |Arguments(p, sep)| && KeyOf(Arguments(p, sep)[a]) == OptionalKeys[i] ::
      Enabled(p)[i] && Arguments(p, sep)[a] == OptionalTokens(p)[i]
  {
    forall a | 0 <= a < |Arguments(p, sep)| && KeyOf(Arguments(p, sep)[a]) == OptionalKeys[i]
      ensures Enabled(p)[i] && Arguments(p, sep)[a] == OptionalTokens(p)[i]
    {
      TokenOfKey(p, sep, a, i);
    }
  }

  /** Option `i`'s token is among the tokens exactly when its parameter is set. */
  lemma OptionTokenPresentIffSet(p: Parameters, sep: char, i: nat)
    requires i < 9
    ensures OptionalTokens(p)[i] in Arguments(p, sep) <==> Enabled(p)[i]
  {
    var args, tok, key := Arguments(p, sep), OptionalTokens(p)[i], OptionalKeys[i];
    OptionPresentIffSet(p, sep, i);
    TokensOfKey(p, sep, i);
    KeysOfOptional(Interpolate(p.version), Quoted(Interpolate(p.exclude)), Interpolate(p.logPath));
    assert KeyOf(tok) == key;
    if tok in args {
      var a :| 0 <= a < |args| && args[a] == tok;
      assert KeyOf(args[a]) == key;
    }
    if Enabled(p)[i] {
      KeyedTokenPresent(args, key, tok);
    }
  }

  /** A bare flag is among the tokens exactly when its parameter is set. */
  lemma FlagPresentIffSet(p: Parameters, sep: char, i: nat)
    requires i == 1 || i == 2 || i == 4 || i == 5 || i == 6 || i == 7
    ensures OptionalKeys[i] in Arguments(p, sep) <==> Enabled(p)[i]
  {
    FlagToken(p, i);
    OptionTokenPresentIffSet(p, sep, i);
  }

  /** The flags are independent: with debugging off and network debugging on,
      the list has `--debug_network` and no `--debug`. */
  lemma DebugNetworkWithoutDebug(p: Parameters, sep: char)
    requires !p.debug && p.debugNetwork
    ensures DebugNetworkFlag in Arguments(p, sep)
    ensures DebugFlag !in Arguments(p, sep)
  {
    FlagPresentIffSet(p, sep, 6);
    FlagPresentIffSet(p, sep, 7);
  }

  /** The text of the exclude token. */
  lemma ExcludeTokenText(p: Parameters)
    requires !IsNullOrEmpty(p.exclude)
    ensures OptionalTokens(p)[3] == "--exclude=\"" + p.exclude.value + "\""
  {
  }

  /** A non-empty exclude pattern gives exactly one token with the exclude key,
      the pattern between double quotes; otherwise no token has that key. */
  lemma ExcludeQuoted(p: Parameters, sep: char)
    ensures !IsNullOrEmpty(p.exclude) ==> "--exclude=\"" + p.exclude.value + "\"" in Arguments(p, sep)
    ensures forall a | 0 <= a < |Arguments(p, sep)| && KeyOf(Arguments(p, sep)[a]) == ExcludeKey ::
      !IsNullOrEmpty(p.exclude) && Arguments(p, sep)[a] == "--exclude=\"" + p.exclude.value + "\""
    ensures IsNullOrEmpty(p.exclude) ==> ExcludeKey !in Keys(Arguments(p, sep))
  {
    OptionPresentIffSet(p, sep, 3);
    OptionTokenPresentIffSet(p, sep, 3);
    TokensOfKey(p, sep, 3);
    if !IsNullOrEmpty(p.exclude) {
      ExcludeTokenText(p);
    }
  }

  /** Fields the projector does not read leave the argument list and the
      command line as they are: only the sixteen projected fields matter. */
  lemma UnprojectedFieldsIgnored(p: Parameters, q: Parameters, sep: char)
    requires p.consoleDirectory == q.consoleDirectory && p.consoleCredentials == q.consoleCredentials
    requires p.productName == q.productName && p.envName == q.envName
    requires p.repositoryName == q.repositoryName && p.source == q.source && p.requests == q.requests
    requires p.version == q.version && p.syncAttributes == q.syncAttributes
    requires p.syncTimestamps == q.syncTimestamps && p.exclude == q.exclude
    requires p.autoCreate == q.autoCreate && p.configPrint == q.configPrint && p.debug == q.debug
    requires p.debugNetwork == q.debugNetwork && p.logPath == q.logPath
    ensures Arguments(p, sep) == Arguments(q, sep)
    ensures CommandLine(p, sep) == CommandLine(q, sep)
  {
  }

  /** The command line splits at its spaces back into the argument list exactly
      when no token holds a space; only the exclude pattern is quoted, so a space
      in any other value splits that token. */
  lemma {:induction false} CommandLineSplitsBack(p: Parameters, sep: char)
    ensures Split(CommandLine(p, sep), ' ') == Arguments(p, sep)
        <==> forall a | 0 <= a < |Arguments(p, sep)| :: ' ' !in Arguments(p, sep)[a]
  {
    var args := Arguments(p, sep);
    if forall a | 0 <= a < |args| :: ' ' !in args[a] {
      SplitJoin(args, ' ');
    }
  }

  /** The source token carries the source path normalised to end in exactly
      one separator. */
  lemma SourceToken(p: Parameters, sep: char)
    ensures Arguments(p, sep)[5] == Setting(SourceKey, NormalizeSource(p.source, sep))
    ensures KeyOf(Arguments(p, sep)[5]) == SourceKey
  {
    FixedTokensFirst(p, sep);
    assert Keys(Arguments(p, sep))[5] == FixedKeys[5];
  }

  /** The requests token reads back as the request count. */
  lemma RequestsToken(p: Parameters, sep: char)
    ensures Arguments(p, sep)[6] == Setting(RequestsKey, IntToString(p.requests as int))
    ensures ParseInt(IntToString(p.requests as int)) == Some(p.requests as int)
  {
    FixedTokensFirst(p, sep);
    ParseIntToString(p.requests as int);
  }

  /** Separators appended to the source path do not change its normal form. */
  lemma NormalizeSourceIgnoresAppended(path: string, sep: char, k: nat)
    ensures NormalizeSource(path + Repeat(sep, k), sep) == NormalizeSource(path, sep)
  {
    TrimEndIgnoresAppended(path, sep, k);
  }

  /** Normalising twice gives what normalising once gives. */
  lemma NormalizeSourceIdempotent(path: string, sep: char)
    ensures NormalizeSource(NormalizeSource(path, sep), sep) == NormalizeSource(path, sep)
  {
    var t := TrimEnd(path, sep);
    assert Repeat(sep, 1) == [sep];
    TrimEndIgnoresAppended(t, sep, 1);
    TrimEndUnique(t, sep, t);
  }

  /** A path is its own normal form exactly when it ends in one separator and
      no more. */
  lemma NormalizeSourceFixedPoints(path: string, sep: char)
    ensures NormalizeSource(path, sep) == path
        <==> |path| >= 1 && path[|path| - 1] == sep && (|path| == 1 || path[|path| - 2] != sep)
  {
    if |path| >= 1 && path[|path| - 1] == sep && (|path| == 1 || path[|path| - 2] != sep) {
      var t := path[..|path| - 1];
      assert AllChar(path[|t|..], sep);
      TrimEndUnique(path, sep, t);
      assert t + [sep] == path;
    }
  }
}
