/** The contract a parent hands to a child (src/store.rs `Contract`). */
module Contracts {

  datatype Contract = Contract(
    goal: string,
    acceptanceCriteria: seq<string>,
    interfaces: seq<string>,
    constraints: seq<string>,
    id: string,
    dependsOn: seq<string>,
    verification: seq<string>,
    manualVerification: seq<string>,
    allocation: int)
}
