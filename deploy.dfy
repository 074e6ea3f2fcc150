/** The deployment step: the tool's executable and command line, the handling
    of its exit code, and the build product it registers on success. */
module SolstaDeploy {
  import opened Wrappers
  import opened Text
  import opened Decimal
  import opened SolstaParameters
  import opened SolstaArguments

  /** The text the failure message starts with. */
  const FailurePrefix: string := "Solsta deployment failed with exit code "

  /** Why a deployment failed: the tool exited with a non-zero code. */
  datatype DeployError = DeploymentFailed(exitCode: Int32)
  {
    /** The text of the exception raised for this failure. */
    function Message(): string {
      FailurePrefix + IntToString(exitCode as int)
    }
  }

  /** The failure message names the exit code, in a form that reads back. */
  lemma MessageCarriesExitCode(e: DeployError)
    ensures |e.Message()| > |FailurePrefix| && e.Message()[..|FailurePrefix|] == FailurePrefix
    ensures ParseInt(e.Message()[|FailurePrefix|..]) == Some(e.exitCode as int)
  {
    ParseIntToString(e.exitCode as int);
    assert e.Message()[|FailurePrefix|..] == IntToString(e.exitCode as int);
  }

  /** `name` under directory `dir`, as Path.Combine joins a relative name. */
  function CombinePath(dir: string, name: string, sep: char): (r: string)
    ensures dir == [] ==> r == name
    ensures dir != [] && dir[|dir| - 1] == sep ==> |r| == |dir| + |name|
    ensures dir != [] && dir[|dir| - 1] != sep ==> |r| == |dir| + 1 + |name| && r[|dir|] == sep
    ensures dir != [] ==> r[..|dir|] == dir && r[|r| - |name|..] == name
  {
    if dir == [] then name
    else if dir[|dir| - 1] == sep then dir + name
    else dir + [sep] + name
  }

  /** The release_deploy executable under the build tools directory. */
  function ExecutablePath(buildToolsDirectory: string, sep: char): (r: string)
    ensures buildToolsDirectory != [] ==>
      |r| > |buildToolsDirectory| && r[..|buildToolsDirectory|] == buildToolsDirectory
    ensures |r| >= |"release_deploy.exe"| && r[|r| - |"release_deploy.exe"|..] == "release_deploy.exe"
    ensures sep !in "release_deploy" ==>
      var tail := "release_deploy" + [sep] + "release_deploy.exe";
      |r| >= |tail| && r[|r| - |tail|..] == tail
    ensures sep !in "release_deploy" ==>
      var n := |buildToolsDirectory|;
      var joint := if n == 0 || buildToolsDirectory[n - 1] == sep then [] else [sep];
      r == buildToolsDirectory + joint + "release_deploy" + [sep] + "release_deploy.exe"
  {
    var dir := CombinePath(buildToolsDirectory, "release_deploy", sep);
    var r := CombinePath(dir, "release_deploy.exe", sep);
    assert |dir| >= |buildToolsDirectory| && r[..|dir|] == dir;
    assert buildToolsDirectory != [] ==> r[..|buildToolsDirectory|] == dir[..|buildToolsDirectory|];
    r
  }

  /** The outcome of a run of the tool and the build products afterwards. */
  datatype DeployResult = DeployResult(outcome: Outcome<DeployError>, products: set<string>)

  /** What the task does with the tool's exit code: a non-zero code fails the
      task and registers nothing; zero registers the credentials file. */
  function Deploy(products: set<string>, credentials: string, exitCode: Int32): DeployResult {
    if exitCode != 0 then DeployResult(Fail(DeploymentFailed(exitCode)), products)
    else DeployResult(Pass, products + {credentials})
  }

  /** A non-zero exit code fails with that code and leaves the products as they were. */
  lemma FailureKeepsProducts(products: set<string>, credentials: string, exitCode: Int32)
    requires exitCode != 0
    ensures Deploy(products, credentials, exitCode).outcome == Fail(DeploymentFailed(exitCode))
    ensures Deploy(products, credentials, exitCode).products == products
  {
  }

  /** Exit code zero succeeds; the credentials file is then a product, nothing
      else is added and nothing is removed, and the set grows by at most one. */
  lemma SuccessAddsCredentials(products: set<string>, credentials: string)
    ensures Deploy(products, credentials, 0).outcome == Pass
    ensures credentials in Deploy(products, credentials, 0).products
    ensures products <= Deploy(products, credentials, 0).products
    ensures Deploy(products, credentials, 0).products - products <= {credentials}
    ensures |Deploy(products, credentials, 0).products|
         == |products| + (if credentials in products then 0 else 1)
  {
    var after := Deploy(products, credentials, 0).products;
    if credentials in products {
      assert after == products;
    } else {
      assert after - {credentials} == products;
    }
  }

  /** A second successful deployment adds nothing: the set of products, like a
      HashSet, holds the credentials file once. */
  lemma SuccessIdempotent(products: set<string>, credentials: string)
    ensures Deploy(Deploy(products, credentials, 0).products, credentials, 0).products
         == Deploy(products, credentials, 0).products
  {
  }

  /** The set of build products produced by this node. */
  class BuildProductSet {
    var files: set<string>

    constructor(initial: set<string>)
      ensures files == initial
    {
      files := initial;
    }

    /** HashSet.Add: inserts `file`; a file already present stays once. */
    method Add(file: string)
      modifies this
      ensures files == old(files) + {file}
    {
      files := files + {file};
    }
  }

  /** The task, holding the parameters it was configured with. */
  class SolstaDeployTask {
    const parameters: Parameters

    constructor(inParameters: Parameters)
      ensures parameters == inParameters
    {
      parameters := inParameters;
    }

    /** Builds the argument list and the command line, hands them to the tool
        (whose exit code is the parameter `exitCode`), and registers the
        credentials file when the tool succeeds. Returns the executable and the
        command line the tool is run with, and the task's outcome. */
    method ExecuteAsync(buildProducts: BuildProductSet, separator: char, exitCode: Int32)
      returns (outcome: Outcome<DeployError>, executable: string, commandLine: string)
      modifies buildProducts
      ensures executable == ExecutablePath(parameters.buildToolsDirectory, separator)
      ensures commandLine == CommandLine(parameters, separator)
      ensures outcome == Deploy(old(buildProducts.files), parameters.consoleCredentials, exitCode).outcome
      ensures buildProducts.files
           == Deploy(old(buildProducts.files), parameters.consoleCredentials, exitCode).products
    {
      var arguments := BuildArguments(parameters, separator);
      commandLine := Join(arguments, ' ');
      executable := CombinePath(CombinePath(parameters.buildToolsDirectory, "release_deploy", separator),
        "release_deploy.exe", separator);
      if exitCode != 0 {
        outcome := Fail(DeploymentFailed(exitCode));
        return;
      }
      buildProducts.Add(parameters.consoleCredentials);
      outcome := Pass;
    }
  }
}
