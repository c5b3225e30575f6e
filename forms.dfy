/**
 * Form cleaning and choice construction of the ISD-AS and link-assignment
 * edit forms (netbox_scion/forms.py).
 */
module Forms {
  import opened Wrappers
  import opened Strings
  import opened Models

  /** The outcome of a field's clean method: the cleaned value or a validation error. */
  datatype Validated<T> = Valid(value: T) | Invalid(message: string)

  // ---------------------------------------------------------------------------
  // ISD-AS form: the hidden `cores` field
  // ---------------------------------------------------------------------------

  /** A non-empty string that `strip()` leaves unchanged. */
  predicate IsStripped(x: string)
  {
    x != [] && !IsSpace(x[0]) && !IsSpace(x[|x| - 1])
  }

  /** No string of `xs` contains `c`. */
  predicate NoneContains(xs: seq<string>, c: char)
  {
    forall i :: 0 <= i < |xs| ==> c !in xs[i]
  }

  /** A name the cores field can carry: non-empty, stripped, without a comma. */
  predicate IsCoreName(x: string)
  {
    IsStripped(x) && ',' !in x
  }

  /** The separator the form uses to render the list (`', '.join`). */
  const CoreSeparator := ", "

  /** `[p.strip() for p in pieces if p.strip()]`. */
  function StripNonBlank(pieces: seq<string>): (r: seq<string>)
    ensures |r| <= |pieces|
    ensures forall i :: 0 <= i < |r| ==> IsStripped(r[i])
    ensures NoneContains(pieces, ',') ==> NoneContains(r, ',')
  {
    if pieces == [] then []
    else
      var rest := StripNonBlank(pieces[1..]);
      var head := Strip(pieces[0]);
      if head == [] then rest
      else
        StripNonBlankHead(pieces[0], head, rest);
        [head] + rest
  }

  lemma StripNonBlankHead(p: string, head: string, rest: seq<string>)
    requires head == Strip(p) && head != []
    ensures IsStripped(head)
    ensures ',' !in p && NoneContains(rest, ',') ==> NoneContains([head] + rest, ',')
  {
    if ',' in head {
      StripChars(p, ',');
    }
    if ',' !in p && NoneContains(rest, ',') {
      forall i | 0 <= i < |rest| + 1 ensures ',' !in ([head] + rest)[i] {
        if i > 0 { assert ([head] + rest)[i] == rest[i - 1]; }
      }
    }
  }

  lemma {:induction false} StripNonBlankAppend(a: seq<string>, b: seq<string>)
    ensures StripNonBlank(a + b) == StripNonBlank(a) + StripNonBlank(b)
  {
    if a != [] {
      assert (a + b)[1..] == a[1..] + b;
      StripNonBlankAppend(a[1..], b);
    } else {
      assert a + b == b;
    }
  }

  /**
   * `ISDAForm.clean_cores`: an empty value gives the empty list; otherwise the
   * comma-separated pieces, stripped, with the blank ones dropped.
   */
  function CleanCores(coresStr: string): (r: seq<string>)
    ensures coresStr == [] ==> r == []
    ensures forall i :: 0 <= i < |r| ==> IsCoreName(r[i])
    ensures |r| <= |Split(coresStr, ',')|
  {
    if coresStr == [] then []
    else
      SplitPiecesFree(coresStr, ',');
      StripNonBlank(Split(coresStr, ','))
  }

  /** The empty-string guard of `clean_cores` agrees with the general rule. */
  lemma CleanCoresIsStripNonBlank(s: string)
    ensures CleanCores(s) == StripNonBlank(Split(s, ','))
  {
    if s == [] {
      assert Split(s, ',') == [""];
      assert Strip("") == [];
    }
  }

  /** A piece without a comma cleans to its stripped self, or to nothing if blank. */
  lemma CleanCoresPiece(p: string)
    requires ',' !in p
    ensures CleanCores(p) == if IsBlank(p) then [] else [Strip(p)]
  {
    CleanCoresIsStripNonBlank(p);
    SplitWithoutSep(p, ',');
    assert [p][1..] == [];
  }

  /**
   * Cleaning keeps input order: the names cleaned from text before a comma
   * come before those cleaned from text after it.
   */
  lemma CleanCoresConcat(a: string, b: string)
    ensures CleanCores(a + "," + b) == CleanCores(a) + CleanCores(b)
  {
    CleanCoresIsStripNonBlank(a + "," + b);
    CleanCoresIsStripNonBlank(a);
    CleanCoresIsStripNonBlank(b);
    SplitAt(a, b, ',');
    StripNonBlankAppend(Split(a, ','), Split(b, ','));
  }

  lemma {:induction false} CleanPadded(pre: string, xs: seq<string>)
    requires IsBlank(pre)
    requires |xs| >= 1
    requires forall i :: 0 <= i < |xs| ==> IsCoreName(xs[i])
    ensures StripNonBlank(Split(pre + JoinWith(xs, CoreSeparator), ',')) == xs
    decreases |xs|
  {
    var x := xs[0];
    BlankHasNoComma(pre);
    var head := pre + x;
    SplitWithoutSep(head, ',');
    StripPadded(pre, x);
    StripNonBlankSingle(head);
    if |xs| == 1 {
      assert pre + JoinWith(xs, CoreSeparator) == head;
    } else {
      var tail := JoinWith(xs[1..], CoreSeparator);
      JoinCons(pre, xs);
      SplitAt(head, " " + tail, ',');
      CleanPadded(" ", xs[1..]);
      StripNonBlankAppend([head], Split(" " + tail, ','));
    }
  }

  lemma StripNonBlankSingle(p: string)
    ensures StripNonBlank([p]) == if Strip(p) == [] then [] else [Strip(p)]
  {
    assert [p][1..] == [];
  }

  lemma JoinCons(pre: string, xs: seq<string>)
    requires |xs| >= 2
    ensures pre + JoinWith(xs, CoreSeparator)
      == (pre + xs[0]) + [','] + (" " + JoinWith(xs[1..], CoreSeparator))
  {
    var rest := JoinWith(xs[1..], CoreSeparator);
    assert JoinWith(xs, CoreSeparator) == xs[0] + CoreSeparator + rest;
    assert CoreSeparator == [','] + " ";
  }

  lemma BlankHasNoComma(pre: string)
    requires IsBlank(pre)
    ensures ',' !in pre
  {
  }

  /**
   * The form's round trip: a list of core names rendered with `', '.join`
   * into the hidden field comes back unchanged from `clean_cores`.
   */
  lemma CoresRoundTrip(xs: seq<string>)
    requires forall i :: 0 <= i < |xs| ==> IsCoreName(xs[i])
    ensures CleanCores(JoinWith(xs, CoreSeparator)) == xs
  {
    if |xs| >= 1 {
      CleanCoresIsStripNonBlank(JoinWith(xs, CoreSeparator));
      CleanPadded("", xs);
      assert "" + JoinWith(xs, CoreSeparator) == JoinWith(xs, CoreSeparator);
    }
  }

  /** Cleaning is idempotent once rendered back: cleaning a second time changes nothing. */
  lemma CleanCoresIdempotent(s: string)
    ensures CleanCores(JoinWith(CleanCores(s), CoreSeparator)) == CleanCores(s)
  {
    CoresRoundTrip(CleanCores(s));
  }

  /** A core name passes through `CleanCores` as itself. */
  lemma CleanCoresName(x: string)
    requires IsCoreName(x)
    ensures CleanCores(x) == [x]
  {
    assert !IsSpace(x[0]);
    CleanCoresPiece(x);
    StripPadded([], x);
    assert [] + x == x;
  }

  /**
   * The round trip needs comma-free names: one appliance named `x,y` (which
   * the appliance views accept) comes back from the hidden field as the two
   * cores `x` and `y`.
   */
  lemma CommaNameDoesNotRoundTrip(x: string, y: string)
    requires IsCoreName(x) && IsCoreName(y)
    ensures CleanCores(JoinWith([x + "," + y], CoreSeparator)) == [x, y]
  {
    CleanCoresConcat(x, y);
    CleanCoresName(x);
    CleanCoresName(y);
  }

  /** The instance an ISD-AS form is bound to (`pk` is `None` for a new record). */
  datatype IsdAsInstance = IsdAsInstance(pk: Option<Pk>, cores: Option<seq<string>>)

  class IsdAsForm {
    /** `self.initial['cores']`; `None` when the key is not set. */
    var initialCores: Option<string>

    /**
     * `ISDAForm.__init__`: for a saved instance with a non-empty core list the
     * hidden field starts as the list joined with ", "; otherwise the initial
     * value passed in is kept.
     */
    constructor (instance: IsdAsInstance, initialCores: Option<string>)
      ensures instance.pk.Some? && OrEmpty(instance.cores) != [] ==>
        this.initialCores == Some(JoinWith(instance.cores.value, CoreSeparator))
      ensures !(instance.pk.Some? && OrEmpty(instance.cores) != []) ==> this.initialCores == initialCores
    {
      this.initialCores := initialCores;
      if instance.pk.Some? && instance.cores.Some? && instance.cores.value != [] {
        this.initialCores := Some(JoinWith(instance.cores.value, CoreSeparator));
      }
    }
  }

  // ---------------------------------------------------------------------------
  // Link-assignment form
  // ---------------------------------------------------------------------------

  /** One entry of a choice list: the submitted value and the text displayed. */
  datatype Choice = Choice(value: string, display: string)

  const SelectCore := Choice("", "--- Select Core ---")
  const NoCoresAvailable := Choice("", "No cores available")
  const SelectIsdAsFirst := Choice("", "--- Select ISD-AS first ---")

  /**
   * The core dropdown for an ISD-AS with the given cores: the "Select Core"
   * placeholder followed by one (core, core) entry per core in list order, or
   * the single "No cores available" entry when the list is empty.
   */
  function CoreChoices(cores: seq<string>): (r: seq<Choice>)
    ensures cores == [] ==> r == [NoCoresAvailable]
    ensures cores != [] ==> |r| == |cores| + 1 && r[0] == SelectCore
    ensures cores != [] ==> forall i :: 0 <= i < |cores| ==> r[i + 1] == Choice(cores[i], cores[i])
  {
    var choices := seq(|cores|, i requires 0 <= i < |cores| => Choice(cores[i], cores[i]));
    if choices != [] then [SelectCore] + choices else [NoCoresAvailable]
  }

  /**
   * What the required choice field accepts (the host framework's rule): a
   * non-empty value that is the value of one of the choices.
   */
  predicate CoreFieldAccepts(choices: seq<Choice>, v: string)
  {
    v != [] && exists i :: 0 <= i < |choices| && choices[i].value == v
  }

  /**
   * With the dropdown built from an ISD-AS's cores, the core field accepts
   * exactly the listed cores; with no ISD-AS selected it accepts nothing.
   */
  lemma CoreFieldAcceptsListedCores(cores: seq<string>, v: string)
    ensures CoreFieldAccepts(CoreChoices(cores), v) <==> v != [] && v in cores
    ensures !CoreFieldAccepts([SelectIsdAsFirst], v)
  {
    var r := CoreChoices(cores);
    if v != [] && v in cores {
      var k :| 0 <= k < |cores| && cores[k] == v;
      assert r[k + 1].value == v;
    }
    if CoreFieldAccepts(r, v) {
      var i :| 0 <= i < |r| && r[i].value == v;
      assert cores[i - 1] == v;
    }
  }

  /** The instance a link-assignment form is bound to. */
  datatype LinkInstance = LinkInstance(pk: Option<Pk>, isdAs: Option<Pk>)

  /**
   * The ISD-AS whose cores fill the dropdown: the saved instance's, else the
   * one named by the form data if it exists. `dataIsdAs` is the `isd_as` entry
   * of data passed as the first positional argument, and only when that data
   * is a dict; data passed as `data=` reaches only `FullClean`. It is `None`
   * when there is no such data, no or an empty `isd_as` entry, or one that is
   * not a key (the lookup's DoesNotExist and ValueError are swallowed alike).
   */
  function SelectedIsdAs(isdases: IsdAsTable, instance: LinkInstance, dataIsdAs: Option<Pk>): (r: Option<Pk>)
    requires instance.isdAs.Some? ==> instance.isdAs.value in isdases
    ensures r.Some? ==> r.value in isdases
    ensures instance.pk.Some? && instance.isdAs.Some? ==> r == instance.isdAs
    ensures !(instance.pk.Some? && instance.isdAs.Some?) ==>
      r == if dataIsdAs.Some? && dataIsdAs.value in isdases then dataIsdAs else None
  {
    if instance.pk.Some? && instance.isdAs.Some? then instance.isdAs
    else if dataIsdAs.Some? && dataIsdAs.value in isdases then dataIsdAs
    else None
  }

  class LinkAssignmentForm {
    var customerIdRequired: bool
    var zendeskTicketRequired: bool
    var coreChoices: seq<Choice>

    /**
     * `SCIONLinkAssignmentForm.__init__`: customer id and ticket become
     * optional, and the core dropdown is built from the selected ISD-AS or
     * asks for an ISD-AS first.
     */
    constructor (isdases: IsdAsTable, instance: LinkInstance, dataIsdAs: Option<Pk>)
      requires instance.isdAs.Some? ==> instance.isdAs.value in isdases
      ensures !customerIdRequired && !zendeskTicketRequired
      ensures SelectedIsdAs(isdases, instance, dataIsdAs).None? ==> coreChoices == [SelectIsdAsFirst]
      ensures SelectedIsdAs(isdases, instance, dataIsdAs).Some? ==>
        coreChoices == CoreChoices(OrEmpty(isdases[SelectedIsdAs(isdases, instance, dataIsdAs).value]))
    {
      customerIdRequired := false;
      zendeskTicketRequired := false;
      var isdAs := SelectedIsdAs(isdases, instance, dataIsdAs);
      if isdAs.Some? {
        coreChoices := CoreChoices(OrEmpty(isdases[isdAs.value]));
      } else {
        coreChoices := [SelectIsdAsFirst];
      }
    }

    /**
     * `full_clean`: when the submitted data names an existing ISD-AS, the
     * dropdown is rebuilt from its cores before validation; otherwise it is
     * left as it was.
     */
    method FullClean(isdases: IsdAsTable, dataIsdAs: Option<Pk>)
      modifies this`coreChoices
      ensures dataIsdAs.Some? && dataIsdAs.value in isdases ==>
        coreChoices == CoreChoices(OrEmpty(isdases[dataIsdAs.value]))
      ensures !(dataIsdAs.Some? && dataIsdAs.value in isdases) ==> coreChoices == old(coreChoices)
    {
      if dataIsdAs.Some? && dataIsdAs.value in isdases {
        coreChoices := CoreChoices(OrEmpty(isdases[dataIsdAs.value]));
      }
    }
  }

  const TicketNotNumeric := "Zendesk ticket must contain only numbers"

  /**
   * `clean_zendesk_ticket`: a missing, empty or whitespace-only ticket is
   * accepted as it is; any other ticket must consist of digits only, so
   * surrounding spaces make it invalid.
   */
  function CleanZendeskTicket(ticket: Option<string>): (r: Validated<Option<string>>)
    ensures r.Valid? <==> ticket.None? || IsBlank(ticket.value) || IsDigits(ticket.value)
    ensures r.Valid? ==> r.value == ticket
    ensures r.Invalid? ==> r.message == TicketNotNumeric
  {
    match ticket
    case None => Valid(ticket)
    case Some(t) =>
      if t != [] && Strip(t) != [] && !IsDigits(t) then Invalid(TicketNotNumeric) else Valid(ticket)
  }

  /** `clean_core`: the submitted core is passed through; the choice list has validated it. */
  function CleanCore(core: Option<string>): (r: string)
    ensures core.Some? ==> r == core.value
    ensures core.None? ==> r == []
  {
    core.GetOr("")
  }
}
