/** What every command shares: the validator's verdict, option descriptors, request descriptors. */
module Command {
  import opened Wrappers

  /** What a validator returns: `true`/`false`, or the message of the rule that failed. */
  datatype Verdict = Flag(value: bool) | Message(text: string)

  /** A command-line option as the command declares it: its flags and, optionally, suggested values. */
  datatype CommandOption = CommandOption(option: string, autocomplete: Option<seq<string>>)

  /** A REST request: its URL, its `accept` header and, optionally, the expected response type. */
  datatype Request = Request(url: string, accept: string, responseType: Option<string>)

  /** JavaScript truthiness of an optional string option: present and not empty. */
  predicate Truthy(o: Option<string>) {
    o.Some? && o.value != ""
  }

  /** `(!(!x)).toString()` of a boolean. */
  function BoolText(b: bool): string {
    if b then "true" else "false"
  }
}
