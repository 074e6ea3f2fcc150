/** The parameter record of the Solsta deployment task. Directory and file
    references stand for their full names; a nullable string or reference is an
    Option. */
module SolstaParameters {
  import opened Wrappers

  /** The 32-bit signed integers of the C# task's `int`. */
  newtype Int32 = x: int | -0x8000_0000 <= x < 0x8000_0000

  datatype Parameters = Parameters(
    buildToolsDirectory: string,
    consoleDirectory: string,
    consoleCredentials: string,
    baseUrl: Option<string>,
    repositoryId: Option<string>,
    source: string,
    syncDirectory: string,
    aliasName: Option<string>,
    autoCreate: bool,
    baseUrlMetafile: Option<string>,
    description: Option<string>,
    envId: Option<string>,
    envName: Option<string>,
    exclude: Option<string>,
    executableFiles: Option<string>,
    gzip: bool,
    hiddenFiles: Option<string>,
    includeFiles: Option<string>,
    password: Option<string>,
    productId: Option<string>,
    productName: Option<string>,
    promote: bool,
    readOnlyFiles: Option<string>,
    repository: Option<string>,
    repositoryName: Option<string>,
    syncAttributes: bool,
    syncTimestamps: bool,
    version: Option<string>,
    requests: Int32,
    configPrint: bool,
    debug: bool,
    debugNetwork: bool,
    logPath: Option<string>,
    files: Option<string>,
    tag: Option<string>)
}
