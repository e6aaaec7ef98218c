/** The error messages the modelled code raises with anyhow!, one constructor
    per message. */
module Errors {

  datatype Error =
    | PathTooShort                      // "path is too short"
    | PathNotUtf8                       // "path is not valid UTF-8"
    | NameAlreadyExists(name: string)   // "name '{}' already exists"
    | NameDoesNotExist(name: string)    // "name '{}' does not exist"
    | NameNotFound                      // the `path` command: "name does not exist"
    | SaveFailed                        // "failed to save config"
    | HeadNotBranch                     // "head is not a branch"
    | ReferenceIndirect                 // "reference is indirect"
    | RemoteNotBranch                   // "remote is not a branch"
    | SummaryNotUtf8                    // "commit summary is not valid UTF-8"
    | Git(message: string)              // an error reported by the git library
}
