/** The errors the access layer returns, named after the Go errors they stand for. */
module Errors {

  datatype Error =
    | KeyNotFound                    // badger.ErrKeyNotFound from txn.Get
    | Unsupported                    // json.Marshal refused the value
    | Syntax                         // json.Unmarshal: not one well-formed document
    | TypeMismatch                   // json.Unmarshal: the document does not fit the target type
    | WriteRefused(key: string)      // the engine refused Set, SetEntry or Delete of this physical key
    | CommitFailed                   // the engine could not commit the transaction
    | InvalidTtl(ttl: int)           // "invalid TTL: %v"
    | MarshalFailed(key: string, cause: Error)   // "failed to marshal value for key %s: %v"
    | SetFailed(key: string, cause: Error)       // "failed to set entry for key %s: %v"
    | UpdateFailed(key: string, cause: Error)    // "failed to update entry for key %s: %v"
    | DeleteFailed(key: string, cause: Error)    // "failed to delete entry for key %s: %v"
}
