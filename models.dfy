/**
 * The rows the plugin stores: ISD-AS records with their ordered list of
 * appliance (core) names, and SCION link assignments that bind an
 * interface of an ISD-AS to one of those appliances.
 */
module Models {
  import opened Wrappers

  /** A database primary key; auto-increment keys start at 1, so a key is never falsy. */
  type Pk = n: nat | n >= 1 witness 1

  /**
   * The `appliances` (also called `cores`) column of every ISD-AS row, by
   * primary key. `None` is a NULL column, which every reader treats as the
   * empty list.
   */
  type IsdAsTable = map<Pk, Option<seq<string>>>

  /** A row of the link-assignment table, reduced to the columns the logic reads. */
  datatype LinkAssignment = LinkAssignment(isdAs: Pk, interfaceId: int, core: string)

  /** `isdas.appliances or []`. */
  function OrEmpty(names: Option<seq<string>>): seq<string>
  {
    names.GetOr([])
  }

  /** No name occurs twice: the uniqueness the appliance views maintain. */
  predicate NoDuplicates(names: seq<string>)
  {
    forall i, j :: 0 <= i < j < |names| ==> names[i] != names[j]
  }

  /** Every assignment points at an existing ISD-AS and at an appliance listed on it. */
  ghost predicate Referenced(isdases: IsdAsTable, links: seq<LinkAssignment>)
  {
    forall a :: a in links ==> a.isdAs in isdases && a.core in OrEmpty(isdases[a.isdAs])
  }
}
