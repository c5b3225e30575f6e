/**
 * The request logic of netbox_scion/views.py: the appliance (core) list of
 * an ISD-AS with its cascade onto link assignments, the AJAX appliance
 * lookup, and the "Create & Add Another" redirect of the link-assignment
 * edit view. Flash messages and redirects become `Outcome` values; the
 * database becomes the fields of `Database`.
 */
module Views {
  import opened Wrappers
  import opened Strings
  import opened Models

  // ---------------------------------------------------------------------------
  // Lists and tables
  // ---------------------------------------------------------------------------

  /** `names.index(x)`: the first position of `x`. */
  function IndexOf(names: seq<string>, x: string): (r: nat)
    requires x in names
    ensures r < |names| && names[r] == x && x !in names[..r]
  {
    if names[0] == x then 0 else 1 + IndexOf(names[1..], x)
  }

  /** `names.remove(x)`: `names` without the first occurrence of `x`, which must be present. */
  function RemoveFirst(names: seq<string>, x: string): (r: seq<string>)
    requires x in names
    ensures r == names[..IndexOf(names, x)] + names[IndexOf(names, x) + 1..]
  {
    if names[0] == x then names[1..]
    else
      assert names == [names[0]] + names[1..];
      [names[0]] + RemoveFirst(names[1..], x)
  }

  /** The filter `isd_as=pk, core=name` of the link-assignment table. */
  predicate Matches(a: LinkAssignment, pk: Pk, name: string)
  {
    a.isdAs == pk && a.core == name
  }

  /** `filter(isd_as=pk, core=name).count()`. */
  function CountCore(links: seq<LinkAssignment>, pk: Pk, name: string): (r: nat)
    ensures r <= |links|
    ensures r == 0 <==> forall i :: 0 <= i < |links| ==> !Matches(links[i], pk, name)
  {
    if links == [] then 0
    else (if Matches(links[0], pk, name) then 1 else 0) + CountCore(links[1..], pk, name)
  }

  /** `filter(isd_as=pk, core=from).update(core=to)`. */
  function Retarget(links: seq<LinkAssignment>, pk: Pk, from: string, to: string): (r: seq<LinkAssignment>)
    ensures |r| == |links|
    ensures forall i :: 0 <= i < |links| ==>
      r[i] == if Matches(links[i], pk, from) then links[i].(core := to) else links[i]
  {
    if links == [] then []
    else
      [if Matches(links[0], pk, from) then links[0].(core := to) else links[0]]
      + Retarget(links[1..], pk, from, to)
  }

  /** `filter(isd_as=pk, core=name).delete()`: exactly the matching rows go. */
  function DropCore(links: seq<LinkAssignment>, pk: Pk, name: string): (r: seq<LinkAssignment>)
    ensures |r| + CountCore(links, pk, name) == |links|
    ensures forall a :: a in r <==> a in links && !Matches(a, pk, name)
    ensures CountCore(links, pk, name) == 0 ==> r == links
  {
    if links == [] then []
    else
      var rest := DropCore(links[1..], pk, name);
      assert links == [links[0]] + links[1..];
      if Matches(links[0], pk, name) then rest else [links[0]] + rest
  }

  /** Dropping keeps every non-matching row as often as it occurred, and no matching row. */
  lemma {:induction false} DropCoreKeepsOthers(links: seq<LinkAssignment>, pk: Pk, name: string)
    ensures forall a :: (multiset(DropCore(links, pk, name))[a]
      == if Matches(a, pk, name) then 0 else multiset(links)[a])
  {
    if links != [] {
      DropCoreKeepsOthers(links[1..], pk, name);
      assert links == [links[0]] + links[1..];
      assert multiset(links) == multiset([links[0]]) + multiset(links[1..]);
    }
  }

  /**
   * After a rename, no assignment of the ISD-AS refers to the old name, and
   * the ones that did now refer to the new name.
   */
  lemma {:induction false} RetargetMovesCount(links: seq<LinkAssignment>, pk: Pk, from: string, to: string)
    requires from != to
    ensures CountCore(Retarget(links, pk, from, to), pk, from) == 0
    ensures CountCore(Retarget(links, pk, from, to), pk, to)
      == CountCore(links, pk, to) + CountCore(links, pk, from)
  {
    if links != [] {
      RetargetMovesCount(links[1..], pk, from, to);
      var r := Retarget(links, pk, from, to);
      assert r[1..] == Retarget(links[1..], pk, from, to);
    }
  }

  /** Renaming keeps a duplicate-free list duplicate-free, and the old name leaves it. */
  lemma RenameKeepsNoDuplicates(names: seq<string>, from: string, to: string)
    requires NoDuplicates(names) && from in names && to !in names
    ensures var r := names[IndexOf(names, from) := to];
      NoDuplicates(r) && to in r && from !in r
  {
    var i := IndexOf(names, from);
    var r := names[i := to];
    assert r[i] == to;
  }

  /** Position `j` of `names.remove(x)` holds the entry of `names` at `j`, or at `j + 1` past the removed one. */
  lemma RemoveFirstAt(names: seq<string>, x: string, j: int)
    requires x in names && 0 <= j < |names| - 1
    ensures RemoveFirst(names, x)[j] == names[if j < IndexOf(names, x) then j else j + 1]
  {
  }

  /** Removing a name from a duplicate-free list removes it entirely. */
  lemma RemoveKeepsNoDuplicates(names: seq<string>, x: string)
    requires NoDuplicates(names) && x in names
    ensures var r := RemoveFirst(names, x);
      NoDuplicates(r) && x !in r && |r| == |names| - 1
  {
    var i := IndexOf(names, x);
    var r := RemoveFirst(names, x);
    forall j, k | 0 <= j < k < |r| ensures r[j] != r[k] {
      RemoveFirstAt(names, x, j);
      RemoveFirstAt(names, x, k);
    }
    forall j | 0 <= j < |r| ensures r[j] != x {
      RemoveFirstAt(names, x, j);
    }
  }

  /** Appending a name keeps every assignment's appliance listed. */
  lemma AddKeepsReferenced(isdases: IsdAsTable, links: seq<LinkAssignment>, pk: Pk, name: string)
    requires Referenced(isdases, links) && pk in isdases
    ensures Referenced(isdases[pk := Some(OrEmpty(isdases[pk]) + [name])], links)
  {
  }

  /** Renaming keeps every assignment's appliance listed: the moved ones follow the new name. */
  lemma RenameKeepsReferenced(isdases: IsdAsTable, links: seq<LinkAssignment>, pk: Pk, from: string, to: string)
    requires Referenced(isdases, links) && pk in isdases
    requires from in OrEmpty(isdases[pk])
    ensures var names := OrEmpty(isdases[pk]);
      Referenced(isdases[pk := Some(names[IndexOf(names, from) := to])], Retarget(links, pk, from, to))
  {
    var names := OrEmpty(isdases[pk]);
    var i := IndexOf(names, from);
    var renamed := names[i := to];
    var t := isdases[pk := Some(renamed)];
    var r := Retarget(links, pk, from, to);
    forall a | a in r ensures a.isdAs in t && a.core in OrEmpty(t[a.isdAs]) {
      var k :| 0 <= k < |r| && r[k] == a;
      var b := links[k];
      assert b in links;
      if Matches(b, pk, from) {
        assert a.core == to && renamed[i] == to;
      } else if b.isdAs == pk {
        var j :| 0 <= j < |names| && names[j] == b.core;
        assert renamed[j] == b.core;
      }
    }
  }

  /** Removing a name keeps every remaining assignment's appliance listed. */
  lemma RemoveKeepsReferenced(isdases: IsdAsTable, links: seq<LinkAssignment>, pk: Pk, name: string)
    requires Referenced(isdases, links) && pk in isdases
    requires name in OrEmpty(isdases[pk])
    ensures Referenced(isdases[pk := Some(RemoveFirst(OrEmpty(isdases[pk]), name))], DropCore(links, pk, name))
  {
    var names := OrEmpty(isdases[pk]);
    var i := IndexOf(names, name);
    var removed := RemoveFirst(names, name);
    var t := isdases[pk := Some(removed)];
    forall a | a in DropCore(links, pk, name) ensures a.isdAs in t && a.core in OrEmpty(t[a.isdAs]) {
      if a.isdAs == pk {
        var j :| 0 <= j < |names| && names[j] == a.core;
        assert j != i;
        assert removed[if j < i then j else j - 1] == a.core;
      }
    }
  }

  // ---------------------------------------------------------------------------
  // The appliance views
  // ---------------------------------------------------------------------------

  /** What a view reports back: its flash message and redirect, as a value. */
  datatype Outcome =
    | IsdAsNotFound          // get_object_or_404 raised Http404
    | Added
    | AlreadyExists
    | NotFound
    | NoChange
    | Renamed
    | Removed(deleted: nat)  // with the number of link assignments deleted alongside

  const NoIdProvided := "No ISD-AS ID provided"
  const NoSuchIsdAs := "ISD-AS not found"

  /** The JSON body of the AJAX appliance lookup. */
  datatype AppliancesReply = AppliancesReply(error: Option<string>, appliances: seq<string>)

  class Database {
    /** The ISD-AS table: each record's appliance list, NULL as `None`. */
    var isdases: IsdAsTable
    /** The link-assignment table. */
    var links: seq<LinkAssignment>

    constructor (isdases: IsdAsTable, links: seq<LinkAssignment>)
      ensures this.isdases == isdases && this.links == links
    {
      this.isdases := isdases;
      this.links := links;
    }

    /** The appliance list of an ISD-AS as the views read it. */
    function Appliances(pk: Pk): seq<string>
      reads this
      requires pk in isdases
    {
      OrEmpty(isdases[pk])
    }

    /** Every assignment refers to an ISD-AS and one of its appliances. */
    ghost predicate Consistent()
      reads this
    {
      Referenced(isdases, links)
    }

    /**
     * `get_isdas_appliances`: the appliance list of the ISD-AS with the given
     * id, or an error and an empty list when no id was given (`None` also for
     * an empty one) or no such ISD-AS exists.
     */
    function GetIsdasAppliances(isdasId: Option<Pk>): (r: AppliancesReply)
      reads this
      ensures r.error.None? <==> isdasId.Some? && isdasId.value in isdases
      ensures r.error.None? ==> r.appliances == Appliances(isdasId.value)
      ensures r.error.Some? ==> r.appliances == []
      ensures isdasId.None? ==> r.error == Some(NoIdProvided)
      ensures isdasId.Some? && isdasId.value !in isdases ==> r.error == Some(NoSuchIsdAs)
    {
      match isdasId
      case None => AppliancesReply(Some(NoIdProvided), [])
      case Some(pk) =>
        if pk in isdases then AppliancesReply(None, OrEmpty(isdases[pk]))
        else AppliancesReply(Some(NoSuchIsdAs), [])
    }

    /**
     * `add_appliance_to_isdas` (a valid POST): a new name is appended at the
     * end of the list, an existing one is refused. Assignments are untouched.
     */
    method AddAppliance(pk: Pk, name: string) returns (o: Outcome)
      modifies this
      ensures links == old(links)
      ensures pk !in old(isdases) ==> o == IsdAsNotFound && isdases == old(isdases)
      ensures pk in old(isdases) && name in old(Appliances(pk)) ==>
        o == AlreadyExists && isdases == old(isdases)
      ensures pk in old(isdases) && name !in old(Appliances(pk)) ==>
        o == Added && isdases == old(isdases)[pk := Some(old(Appliances(pk)) + [name])]
      ensures pk in old(isdases) && NoDuplicates(old(Appliances(pk))) ==> NoDuplicates(Appliances(pk))
      ensures old(Consistent()) ==> Consistent()
    {
      if pk !in isdases {
        return IsdAsNotFound;
      }
      var appliances := OrEmpty(isdases[pk]);
      if name !in appliances {
        if Consistent() {
          AddKeepsReferenced(isdases, links, pk, name);
        }
        appliances := appliances + [name];
        isdases := isdases[pk := Some(appliances)];
        o := Added;
      } else {
        o := AlreadyExists;
      }
    }

    /**
     * `edit_appliance_in_isdas` (a valid POST): the old name must be listed and
     * the new one differ from it and be free. The new name then takes the old
     * one's place, and every assignment of this ISD-AS on the old name moves
     * to the new one.
     */
    method RenameAppliance(pk: Pk, from: string, to: string) returns (o: Outcome)
      modifies this
      ensures pk !in old(isdases) ==> o == IsdAsNotFound && isdases == old(isdases) && links == old(links)
      ensures pk in old(isdases) && from !in old(Appliances(pk)) ==>
        o == NotFound && isdases == old(isdases) && links == old(links)
      ensures pk in old(isdases) && from in old(Appliances(pk)) && to == from ==>
        o == NoChange && isdases == old(isdases) && links == old(links)
      ensures pk in old(isdases) && from in old(Appliances(pk)) && to != from && to in old(Appliances(pk)) ==>
        o == AlreadyExists && isdases == old(isdases) && links == old(links)
      ensures pk in old(isdases) && from in old(Appliances(pk)) && to != from && to !in old(Appliances(pk)) ==>
        && o == Renamed
        && isdases == old(isdases)[pk := Some(old(Appliances(pk))[IndexOf(old(Appliances(pk)), from) := to])]
        && links == Retarget(old(links), pk, from, to)
      ensures pk in old(isdases) && NoDuplicates(old(Appliances(pk))) ==> NoDuplicates(Appliances(pk))
      ensures old(Consistent()) ==> Consistent()
    {
      if pk !in isdases {
        return IsdAsNotFound;
      }
      var appliances := OrEmpty(isdases[pk]);
      if from !in appliances {
        return NotFound;
      }
      if to != from {
        if to in appliances {
          o := AlreadyExists;
        } else {
          if NoDuplicates(appliances) {
            RenameKeepsNoDuplicates(appliances, from, to);
          }
          if Consistent() {
            RenameKeepsReferenced(isdases, links, pk, from, to);
          }
          var index := IndexOf(appliances, from);
          appliances := appliances[index := to];
          isdases := isdases[pk := Some(appliances)];
          links := Retarget(links, pk, from, to);
          o := Renamed;
        }
      } else {
        o := NoChange;
      }
    }

    /**
     * `remove_appliance_from_isdas`: a listed name is removed (the rest keep
     * their order) and every assignment of this ISD-AS on it is deleted; the
     * outcome carries how many were. An unlisted name changes nothing.
     */
    method RemoveAppliance(pk: Pk, name: string) returns (o: Outcome)
      modifies this
      ensures pk !in old(isdases) ==> o == IsdAsNotFound && isdases == old(isdases) && links == old(links)
      ensures pk in old(isdases) && name !in old(Appliances(pk)) ==>
        o == NotFound && isdases == old(isdases) && links == old(links)
      ensures pk in old(isdases) && name in old(Appliances(pk)) ==>
        && o == Removed(CountCore(old(links), pk, name))
        && isdases == old(isdases)[pk := Some(RemoveFirst(old(Appliances(pk)), name))]
        && links == DropCore(old(links), pk, name)
        && |links| == |old(links)| - o.deleted
      ensures pk in old(isdases) && name in old(Appliances(pk)) && NoDuplicates(old(Appliances(pk))) ==>
        NoDuplicates(Appliances(pk)) && name !in Appliances(pk)
      ensures old(Consistent()) ==> Consistent()
    {
      if pk !in isdases {
        return IsdAsNotFound;
      }
      var appliances := OrEmpty(isdases[pk]);
      if name in appliances {
        var count := CountCore(links, pk, name);
        if NoDuplicates(appliances) {
          RemoveKeepsNoDuplicates(appliances, name);
        }
        if Consistent() {
          RemoveKeepsReferenced(isdases, links, pk, name);
        }
        appliances := RemoveFirst(appliances, name);
        isdases := isdases[pk := Some(appliances)];
        if count > 0 {
          links := DropCore(links, pk, name);
        }
        o := Removed(count);
      } else {
        o := NotFound;
      }
    }
  }

  // ---------------------------------------------------------------------------
  // The add and edit views as written
  // ---------------------------------------------------------------------------

  /**
   * `add_appliance_to_isdas` read against the repository's forms.py: once the
   * ISD-AS is found, both the POST and the GET branch build
   * `forms.ApplianceManagementForm`, a class that file does not define, so
   * the request raises. `None` is that exception; only a missing ISD-AS
   * reaches an outcome. (The repository's forms.py also lacks the filter forms views.py
   * reads at import, so views.py evidently targets another revision of it.)
   */
  function AddApplianceAsWritten(isdases: IsdAsTable, pk: Pk): (r: Option<Outcome>)
    ensures r.None? <==> pk in isdases
    ensures r.Some? ==> r.value == IsdAsNotFound
  {
    if pk in isdases then None else Some(IsdAsNotFound)
  }

  /**
   * `edit_appliance_in_isdas` read the same way: a missing ISD-AS or an unlisted name
   * is answered before the form is built; for a listed name both branches
   * build the undefined form class and raise.
   */
  function RenameApplianceAsWritten(isdases: IsdAsTable, pk: Pk, from: string): (r: Option<Outcome>)
    ensures r.None? <==> pk in isdases && from in OrEmpty(isdases[pk])
    ensures r.Some? ==> r.value == (if pk in isdases then NotFound else IsdAsNotFound)
  {
    if pk !in isdases then Some(IsdAsNotFound)
    else if from !in OrEmpty(isdases[pk]) then Some(NotFound)
    else None
  }

  /** As written, the add view never adds a name or reports one as present. */
  lemma AddAsWrittenNeverAdds(isdases: IsdAsTable, pk: Pk)
    ensures AddApplianceAsWritten(isdases, pk) != Some(Added)
    ensures AddApplianceAsWritten(isdases, pk) != Some(AlreadyExists)
  {
  }

  /** As written, the edit view never renames and never reports "no change" or a clash. */
  lemma RenameAsWrittenNeverRenames(isdases: IsdAsTable, pk: Pk, from: string)
    ensures RenameApplianceAsWritten(isdases, pk, from) !in {Some(Renamed), Some(NoChange), Some(AlreadyExists)}
  {
  }

  /** The smallest input that shows it: ISD-AS 1 with no appliances, and a listed name. */
  lemma AsWrittenRaises()
    ensures AddApplianceAsWritten(map[1 := None], 1).None?
    ensures RenameApplianceAsWritten(map[1 := Some(["core1"])], 1, "core1").None?
  {
  }

  // ---------------------------------------------------------------------------
  // "Create & Add Another"
  // ---------------------------------------------------------------------------

  /**
   * The `.exists()` query `filter(isd_as=owner, interface_id=id)`. For a NULL
   * owner the query is `isd_as IS NULL`; every row here has an ISD-AS, so it
   * matches none. A used id is never above the largest one in the table.
   */
  predicate Used(links: seq<LinkAssignment>, owner: Option<Pk>, id: int)
    ensures Used(links, owner, id) ==> owner.Some? && id <= MaxInterfaceId(links)
  {
    owner.Some? && exists i :: 0 <= i < |links| && links[i].isdAs == owner.value && links[i].interfaceId == id
  }

  /**
   * `n` is the first interface id above `prev` that the ISD-AS does not use:
   * probing upwards from `prev + 1`, never filling gaps below it.
   */
  predicate IsNextFree(links: seq<LinkAssignment>, owner: Option<Pk>, prev: int, n: int)
  {
    && prev + 1 <= n
    && !Used(links, owner, n)
    && forall k :: prev + 1 <= k < n ==> Used(links, owner, k)
  }

  /** The next free id is unique. */
  lemma NextFreeUnique(links: seq<LinkAssignment>, owner: Option<Pk>, prev: int, n: int, m: int)
    requires IsNextFree(links, owner, prev, n) && IsNextFree(links, owner, prev, m)
    ensures n == m
  {
  }

  /** The largest interface id in the table (0 when it is empty). */
  function MaxInterfaceId(links: seq<LinkAssignment>): (r: int)
    ensures forall i :: 0 <= i < |links| ==> links[i].interfaceId <= r
  {
    if links == [] then 0
    else
      var rest := MaxInterfaceId(links[1..]);
      if links[0].interfaceId > rest then links[0].interfaceId else rest
  }

  /** A query parameter with an integer value. */
  datatype Param = Param(key: string, value: int)

  const IsdAsKey := "isd_as"
  const InterfaceIdKey := "interface_id"

  /** The object the edit view just saved, reduced to what the redirect reads. */
  datatype SavedAssignment = SavedAssignment(isdAs: Option<Pk>, interfaceId: int)

  /** The pre-fill parameters, in insertion order: the ISD-AS (when set), then the interface id. */
  function AddAnotherParams(obj: SavedAssignment, next: int): (r: seq<Param>)
    ensures |r| == if obj.isdAs.Some? then 2 else 1
    ensures obj.isdAs.Some? ==> r[0] == Param(IsdAsKey, obj.isdAs.value)
    ensures r[|r| - 1] == Param(InterfaceIdKey, next)
    ensures PlainKeys(r)
  {
    (if obj.isdAs.Some? then [Param(IsdAsKey, obj.isdAs.value)] else []) + [Param(InterfaceIdKey, next)]
  }

  /** `f'{k}={v}'`: one parameter as a query-string piece. */
  function Piece(p: Param): (r: string)
    ensures '&' !in p.key ==> '&' !in r
    ensures '=' !in p.key ==> Split(r, '=') == [p.key, IntToDecimal(p.value)]
  {
    var d := IntToDecimal(p.value);
    assert '&' !in d && '=' !in d;
    if '=' in p.key then p.key + "=" + d
    else
      SplitAt(p.key, d, '=');
      SplitWithoutSep(p.key, '=');
      SplitWithoutSep(d, '=');
      assert p.key + "=" + d == p.key + ['='] + d;
      p.key + "=" + d
  }

  /** The pieces of a query string, one per parameter and in order. */
  function Pieces(params: seq<Param>): (r: seq<string>)
    ensures |r| == |params|
    ensures forall i :: 0 <= i < |params| ==> r[i] == Piece(params[i])
  {
    if params == [] then [] else [Piece(params[0])] + Pieces(params[1..])
  }

  /** `'&'.join(f'{k}={v}' for k, v in params.items())`. */
  function QueryString(params: seq<Param>): (r: string)
    ensures params == [] ==> r == ""
    ensures params != [] && PlainKeys(params) ==> Split(r, '&') == Pieces(params)
  {
    var pieces := Pieces(params);
    if params != [] && PlainKeys(params) then
      assert forall i :: 0 <= i < |pieces| ==> '&' !in pieces[i];
      SplitJoin(pieces, '&');
      JoinWith(pieces, "&")
    else JoinWith(pieces, "&")
  }

  /** One `key=value` piece back into a parameter. */
  function ParseParam(piece: string): Option<Param>
  {
    var kv := Split(piece, '=');
    if |kv| == 2 then
      match ParseInt(kv[1])
      case Some(v) => Some(Param(kv[0], v))
      case None => None
    else None
  }

  function ParseParams(pieces: seq<string>): Option<seq<Param>>
  {
    if pieces == [] then Some([])
    else
      match ParseParam(pieces[0])
      case None => None
      case Some(p) =>
        match ParseParams(pieces[1..])
        case None => None
        case Some(ps) => Some([p] + ps)
  }

  /** Reading a query string back into its parameters. */
  function ParseQuery(q: string): Option<seq<Param>>
  {
    ParseParams(Split(q, '&'))
  }

  predicate PlainKeys(params: seq<Param>)
  {
    forall i :: 0 <= i < |params| ==> '&' !in params[i].key && '=' !in params[i].key
  }

  lemma ParseParamRoundTrip(p: Param)
    requires '&' !in p.key && '=' !in p.key
    ensures ParseParam(Piece(p)) == Some(p)
  {
    ParseIntRoundTrip(p.value);
  }

  /** A query string with plain keys reads back as the parameters it was built from. */
  lemma QueryStringRoundTrip(params: seq<Param>)
    requires |params| >= 1 && PlainKeys(params)
    ensures ParseQuery(QueryString(params)) == Some(params)
  {
    ParsePiecesRoundTrip(params);
  }

  lemma {:induction false} ParsePiecesRoundTrip(params: seq<Param>)
    requires PlainKeys(params)
    ensures ParseParams(Pieces(params)) == Some(params)
  {
    if params != [] {
      var pieces := Pieces(params);
      ParseParamRoundTrip(params[0]);
      ParsePiecesRoundTrip(params[1..]);
      assert pieces[1..] == Pieces(params[1..]);
      assert params == [params[0]] + params[1..];
    }
  }

  /**
   * The add form's URL with the pre-fill parameters: the bare URL when there
   * are none, otherwise the URL, `?`, and a query string made of exactly one
   * `k=str(v)` piece per parameter, in order, which reads back as those
   * parameters.
   */
  function AddFormUrl(addUrl: string, params: seq<Param>): (url: string)
    ensures params == [] ==> url == addUrl
    ensures params != [] ==> |url| > |addUrl| && url[..|addUrl|] == addUrl && url[|addUrl|] == '?'
    ensures params != [] && PlainKeys(params) ==> ParseQuery(url[|addUrl| + 1..]) == Some(params)
    ensures params != [] && PlainKeys(params) ==> Split(url[|addUrl| + 1..], '&') == Pieces(params)
  {
    if params != [] then
      var url := addUrl + "?" + QueryString(params);
      assert url[|addUrl| + 1..] == QueryString(params);
      if PlainKeys(params) then QueryStringRoundTrip(params); url else url
    else addUrl
  }

  /** Where the edit view sends the user after saving. */
  datatype ReturnTo = FrameworkDefault | Url(url: string)

  class LinkAssignmentEditView {
    /** `self.object`: the assignment just saved, once known. */
    var saved: Option<SavedAssignment>

    constructor ()
      ensures saved == None
    {
      saved := None;
    }

    /**
     * `get_extra_addanother_params`: no parameters before an object is set;
     * otherwise its ISD-AS and the next free interface id above its own.
     */
    method GetExtraAddAnotherParams(db: Database) returns (params: seq<Param>)
      ensures saved.None? ==> params == []
      ensures saved.Some? ==>
        && |params| >= 1
        && params == AddAnotherParams(saved.value, params[|params| - 1].value)
        && IsNextFree(db.links, saved.value.isdAs, saved.value.interfaceId, params[|params| - 1].value)
    {
      params := [];
      if saved.Some? {
        var obj := saved.value;
        if obj.isdAs.Some? {
          params := params + [Param(IsdAsKey, obj.isdAs.value)];
        }
        var next := obj.interfaceId + 1;
        while Used(db.links, obj.isdAs, next)
          invariant obj.interfaceId + 1 <= next
          invariant forall k :: obj.interfaceId + 1 <= k < next ==> Used(db.links, obj.isdAs, k)
          decreases MaxInterfaceId(db.links) + 1 - next
        {
          next := next + 1;
        }
        params := params + [Param(InterfaceIdKey, next)];
      }
    }

    /**
     * `get_return_url`: after "Create & Add Another" with a saved object, the
     * add form pre-filled with its ISD-AS and the next free interface id; on
     * any other button the framework's default.
     */
    method GetReturnUrl(db: Database, addAnother: bool, obj: Option<SavedAssignment>, addUrl: string)
      returns (r: ReturnTo)
      modifies this
      ensures !(addAnother && obj.Some?) ==> r == FrameworkDefault && saved == old(saved)
      ensures addAnother && obj.Some? ==>
        && saved == obj
        && exists n :: IsNextFree(db.links, obj.value.isdAs, obj.value.interfaceId, n)
             && r == Url(AddFormUrl(addUrl, AddAnotherParams(obj.value, n)))
    {
      if addAnother && obj.Some? {
        saved := obj;
        var params := GetExtraAddAnotherParams(db);
        r := Url(AddFormUrl(addUrl, params));
      } else {
        r := FrameworkDefault;
      }
    }
  }

  /**
   * The example of an ISD-AS using interface ids 1, 2 and 4 after 4 was
   * just created: the next free id is 5, not the gap at 3.
   */
  lemma NextFreeSkipsGaps()
    ensures var links := [LinkAssignment(1, 1, "c"), LinkAssignment(1, 2, "c"), LinkAssignment(1, 4, "c")];
      IsNextFree(links, Some(1), 4, 5) && !IsNextFree(links, Some(1), 4, 3)
  {
    var links := [LinkAssignment(1, 1, "c"), LinkAssignment(1, 2, "c"), LinkAssignment(1, 4, "c")];
    assert links[2].interfaceId == 4;
  }
}
