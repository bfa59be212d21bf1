/** Consistency checks on the options given to Provide and Decorate. */
module Options {
  import opened Types

  /** `Name`, `Group` and the number of `As` targets of a registration. The
      reflective checks on each `As` target are not part of this model. */
  datatype ProvideOptions = ProvideOptions(name: string, group: string, asCount: nat)

  datatype OptionError =
    | NameWithGroup
    | AsWithGroup
    | NameHasBackquote
    | GroupHasBackquote

  /** Validation passes exactly when a group is used alone (no name, no `As`)
      or not at all, and neither the name nor the group contains a backquote.
      Each error is reported only when its own condition holds. */
  function Validate(o: ProvideOptions): (r: Option<OptionError>)
    ensures r.None? <==>
              (|o.group| == 0 || (|o.name| == 0 && o.asCount == 0))
              && '`' !in o.name && '`' !in o.group
    ensures r == Some(NameWithGroup) <==> |o.group| > 0 && |o.name| > 0
    ensures r == Some(AsWithGroup) ==> |o.group| > 0 && o.asCount > 0
    ensures r == Some(NameHasBackquote) ==> '`' in o.name
    ensures r == Some(GroupHasBackquote) ==> '`' in o.group
  {
    if |o.group| > 0 && |o.name| > 0 then Some(NameWithGroup)
    else if |o.group| > 0 && o.asCount > 0 then Some(AsWithGroup)
    else if '`' in o.name then Some(NameHasBackquote)
    else if '`' in o.group then Some(GroupHasBackquote)
    else None
  }
}
