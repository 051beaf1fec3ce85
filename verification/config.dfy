/** The label classifier of `src/Editor/Config.ts`: the category a label
    sorts into, and lookups of labels in the two-level taxonomy trees.  The
    taxonomies are data handed to each lookup rather than the static tables
    of the editor. */
module Labels {
  import opened Seqs

  /** One label of a taxonomy: its `name` (the `label` field of the source)
      is what `find_label` and `label_group` match on, `key` what the
      taxonomy predicates match on. */
  datatype Entry = Entry(name: string, key: string, desc: string)

  /** A taxonomy group; only the first level of `subgroups` is consulted. */
  datatype Group = Group(name: string, expanded: bool, subgroups: seq<Group>, entries: seq<Entry>)

  /** A named taxonomy, in the order the editor's configuration lists them. */
  datatype Taxonomy = Taxonomy(name: string, groups: seq<Group>)

  // ---------------------------------------------------------------------
  // Label categories
  // ---------------------------------------------------------------------

  /** `LabelOrder`, from first to last in sorting order. */
  datatype Order = Base | Num | Extra | Temp

  const Temporary: seq<string> := ["OBS!", "Cit-FL", "Com!"]
  const Extras: seq<string> := ["gen", "def", "pl", "foreign"]

  /** A non-empty string of the digits 0 to 9 (the pattern `^\d+$`). */
  predicate Digits(s: string) {
    |s| > 0 && forall i | 0 <= i < |s| :: '0' <= s[i] <= '9'
  }

  /** `label_order`: temporary labels first, then the extra markers, then
      numbers; everything else is a base label. */
  function LabelOrder(lab: string): Order {
    if lab in Temporary then Temp
    else if lab in Extras then Extra
    else if Digits(lab) then Num
    else Base
  }

  /** The three fixed classes do not overlap, so each category holds exactly
      the labels of its class, whatever the order of the checks. */
  lemma LabelOrderClasses(lab: string)
    ensures LabelOrder(lab) == Temp <==> lab in Temporary
    ensures LabelOrder(lab) == Extra <==> lab in Extras
    ensures LabelOrder(lab) == Num <==> Digits(lab)
    ensures LabelOrder(lab) == Base <==>
              lab !in Temporary && lab !in Extras && !Digits(lab)
  {
    if Digits(lab) {
      assert lab[0] in "0123456789";
    }
  }

  // ---------------------------------------------------------------------
  // Searching the taxonomies
  // ---------------------------------------------------------------------

  /** The first entry whose `name` is `lab` (Labels.FirstEntry). */
  function EntryWithLabel(entries: seq<Entry>, lab: string): (r: Option<Entry>)
    ensures r.None? <==> forall k | 0 <= k < |entries| :: entries[k].name != lab
    ensures r.Some? ==> r.value in entries && r.value.name == lab
  {
    if entries == [] then None
    else if entries[0].name == lab then Some(entries[0])
    else
      var r := EntryWithLabel(entries[1..], lab);
      assert forall k | 1 <= k < |entries| :: entries[k] == entries[1..][k - 1];
      r
  }

  /** The first group listing an entry labelled `lab` directly (its
      subgroups are not searched). */
  function GroupWithLabel(groups: seq<Group>, lab: string): (r: Option<nat>)
    ensures r.None? <==>
              forall k | 0 <= k < |groups| :: EntryWithLabel(groups[k].entries, lab).None?
    ensures r.Some? ==>
              && r.value < |groups|
              && EntryWithLabel(groups[r.value].entries, lab).Some?
              && forall k | 0 <= k < r.value :: EntryWithLabel(groups[k].entries, lab).None?
  {
    if groups == [] then None
    else if EntryWithLabel(groups[0].entries, lab).Some? then Some(0)
    else
      var r := GroupWithLabel(groups[1..], lab);
      assert forall k | 1 <= k < |groups| :: groups[k] == groups[1..][k - 1];
      match r
      case None => None
      case Some(k) => Some(k + 1)
  }

  /** `label_group`: the first group of the anonymization taxonomy with an
      entry labelled `lab`. */
  function LabelGroup(anonymization: seq<Group>, lab: string): (r: Option<Group>)
  {
    match GroupWithLabel(anonymization, lab)
    case None => None
    case Some(k) => Some(anonymization[k])
  }

  /** `label_group` finds a group exactly when one lists the label, and it
      finds the first such group. */
  lemma LabelGroupFinds(anonymization: seq<Group>, lab: string)
    ensures LabelGroup(anonymization, lab).None? <==>
              forall g | g in anonymization :: forall e | e in g.entries :: e.name != lab
    ensures LabelGroup(anonymization, lab).Some? ==>
              exists k | 0 <= k < |anonymization| ::
                && anonymization[k] == LabelGroup(anonymization, lab).value
                && (exists e | e in anonymization[k].entries :: e.name == lab)
                && forall j | 0 <= j < k :: forall e | e in anonymization[j].entries :: e.name != lab
  {
    var r := GroupWithLabel(anonymization, lab);
    forall g | g in anonymization
      ensures EntryWithLabel(g.entries, lab).None? <==>
                forall e | e in g.entries :: e.name != lab
    {
      EntryMembership(g.entries, lab);
    }
    if r.Some? {
      var k := r.value;
      EntryMembership(anonymization[k].entries, lab);
      forall j | 0 <= j < k ensures forall e | e in anonymization[j].entries :: e.name != lab {
        EntryMembership(anonymization[j].entries, lab);
      }
    }
  }

  lemma EntryMembership(entries: seq<Entry>, lab: string)
    ensures EntryWithLabel(entries, lab).None? <==> forall e | e in entries :: e.name != lab
  {
  }

  /** What `find_label` reports: the taxonomy and group a label was found
      in, and the entry's label and description. */
  datatype Found = Found(taxonomy: string, group: string, name: string, desc: string)

  /** What `find_label` reports from one taxonomy: its first group listing
      the label, and that group's first entry with it. */
  function FoundIn(t: Taxonomy, lab: string): (r: Option<Found>)
    ensures r.None? <==>
              forall k | 0 <= k < |t.groups| :: EntryWithLabel(t.groups[k].entries, lab).None?
    ensures r.Some? ==>
              exists k | 0 <= k < |t.groups| ::
                && EntryWithLabel(t.groups[k].entries, lab).Some?
                && (forall j | 0 <= j < k :: EntryWithLabel(t.groups[j].entries, lab).None?)
                && r.value == Found(t.name, t.groups[k].name, lab,
                                    EntryWithLabel(t.groups[k].entries, lab).value.desc)
  {
    match GroupWithLabel(t.groups, lab)
    case None => None
    case Some(k) =>
      var g := t.groups[k];
      Some(Found(t.name, g.name, lab, EntryWithLabel(g.entries, lab).value.desc))
  }

  /** `r` is a result the search loop of `find_label` may give over
      `taxonomies`: none exactly when no group lists the label, otherwise
      what the first taxonomy listing it reports. */
  predicate Reports(taxonomies: seq<Taxonomy>, lab: string, r: Option<Found>) {
    && (r.None? <==>
          forall t, g | t in taxonomies && g in t.groups :: EntryWithLabel(g.entries, lab).None?)
    && (r.Some? ==>
          exists t, g | t in taxonomies && g in t.groups ::
            && EntryWithLabel(g.entries, lab).Some?
            && r.value == Found(t.name, g.name, lab, EntryWithLabel(g.entries, lab).value.desc))
    && (r.Some? ==>
          exists i | 0 <= i < |taxonomies| ::
            && FoundIn(taxonomies[i], lab) == r
            && forall j | 0 <= j < i :: FoundIn(taxonomies[j], lab).None?)
  }

  /** The search stops at a first taxonomy that lists the label. */
  lemma ReportsHead(taxonomies: seq<Taxonomy>, lab: string)
    requires |taxonomies| > 0 && FoundIn(taxonomies[0], lab).Some?
    ensures Reports(taxonomies, lab, FoundIn(taxonomies[0], lab))
  {
    var t := taxonomies[0];
    var r := FoundIn(t, lab);
    var k :| 0 <= k < |t.groups| && EntryWithLabel(t.groups[k].entries, lab).Some? &&
             r.value == Found(t.name, t.groups[k].name, lab, EntryWithLabel(t.groups[k].entries, lab).value.desc);
    var g := t.groups[k];
    assert t in taxonomies && g in t.groups;
    assert !forall u, h | u in taxonomies && h in u.groups :: EntryWithLabel(h.entries, lab).None?;
    assert exists u, h | u in taxonomies && h in u.groups ::
             && EntryWithLabel(h.entries, lab).Some?
             && r.value == Found(u.name, h.name, lab, EntryWithLabel(h.entries, lab).value.desc);
    assert FoundIn(taxonomies[0], lab) == r;
  }

  /** The search moves past a first taxonomy that does not list the label. */
  lemma ReportsTail(taxonomies: seq<Taxonomy>, lab: string, r: Option<Found>)
    requires |taxonomies| > 0 && FoundIn(taxonomies[0], lab).None?
    requires Reports(taxonomies[1..], lab, r)
    ensures Reports(taxonomies, lab, r)
  {
    var t, rest := taxonomies[0], taxonomies[1..];
    assert forall u | u in rest :: u in taxonomies;
    assert forall u | u in taxonomies :: u == t || u in rest;
    if r.Some? {
      var i :| 0 <= i < |rest| && FoundIn(rest[i], lab) == r &&
               forall j | 0 <= j < i :: FoundIn(rest[j], lab).None?;
      FirstAfterHead(taxonomies, lab, r, i);
    }
  }

  /** A first listing at `i` among the rest is a first listing at `i + 1`
      among all when the head does not list the label. */
  lemma FirstAfterHead(taxonomies: seq<Taxonomy>, lab: string, r: Option<Found>, i: nat)
    requires i + 1 < |taxonomies| && FoundIn(taxonomies[0], lab).None?
    requires FoundIn(taxonomies[1..][i], lab) == r
    requires forall j | 0 <= j < i :: FoundIn(taxonomies[1..][j], lab).None?
    ensures FoundIn(taxonomies[i + 1], lab) == r
    ensures forall j | 0 <= j < i + 1 :: FoundIn(taxonomies[j], lab).None?
  {
    forall j | 0 <= j < i + 1
      ensures FoundIn(taxonomies[j], lab).None?
    {
      if j > 0 {
        assert taxonomies[j] == taxonomies[1..][j - 1];
      }
    }
  }

  /** The search loop of `find_label`: taxonomies in order, groups in
      order, the first entry labelled `lab`; what it reports comes from the
      first taxonomy that lists the label at all. */
  function Search(taxonomies: seq<Taxonomy>, lab: string): (r: Option<Found>)
    ensures r.None? <==>
              forall t, g | t in taxonomies && g in t.groups ::
                EntryWithLabel(g.entries, lab).None?
    ensures r.Some? ==>
              exists t, g | t in taxonomies && g in t.groups ::
                && EntryWithLabel(g.entries, lab).Some?
                && r.value == Found(t.name, g.name, lab, EntryWithLabel(g.entries, lab).value.desc)
    ensures r.Some? ==>
              exists i | 0 <= i < |taxonomies| ::
                && FoundIn(taxonomies[i], lab) == r
                && forall j | 0 <= j < i :: FoundIn(taxonomies[j], lab).None?
  {
    if taxonomies == [] then None
    else
      match FoundIn(taxonomies[0], lab)
      case Some(f) =>
        ReportsHead(taxonomies, lab);
        Some(f)
      case None =>
        var r := Search(taxonomies[1..], lab);
        ReportsTail(taxonomies, lab, r);
        r
  }

  /** `find_label`: a number is reported as an anonymized number without
      looking at the taxonomies, a temporary label is never found, and any
      other label is searched for. */
  function FindLabel(taxonomies: seq<Taxonomy>, lab: string): (r: Option<Found>)
    ensures Digits(lab) ==> r == Some(Found("anonymization", "Number", lab, "number"))
    ensures lab in Temporary ==> r.None?
    ensures !Digits(lab) && lab !in Temporary ==> r == Search(taxonomies, lab)
  {
    LabelOrderClasses(lab);
    var order := LabelOrder(lab);
    if order == Num then Some(Found("anonymization", "Number", lab, "number"))
    else if order == Temp then None
    else Search(taxonomies, lab)
  }

  /** `label_taxonomy`: the taxonomy `find_label` reports, if any. */
  function LabelTaxonomy(taxonomies: seq<Taxonomy>, lab: string): (r: Option<string>)
    ensures r.Some? <==> FindLabel(taxonomies, lab).Some?
    ensures Digits(lab) ==> r == Some("anonymization")
    ensures lab in Temporary ==> r.None?
  {
    match FindLabel(taxonomies, lab)
    case None => None
    case Some(f) => Some(f.taxonomy)
  }

  /** A label found outside the number shortcut is listed by a group of a
      taxonomy, and that taxonomy and group are the ones reported. */
  lemma FindLabelListed(taxonomies: seq<Taxonomy>, lab: string)
    requires !Digits(lab)
    ensures FindLabel(taxonomies, lab).Some? ==>
              exists t, g, e | t in taxonomies && g in t.groups && e in g.entries ::
                && e.name == lab
                && FindLabel(taxonomies, lab).value == Found(t.name, g.name, lab, e.desc)
    ensures FindLabel(taxonomies, lab).None? ==>
              lab in Temporary ||
              forall t, g, e | t in taxonomies && g in t.groups && e in g.entries :: e.name != lab
  {
    var r := FindLabel(taxonomies, lab);
    if r.Some? {
      var t, g :| t in taxonomies && g in t.groups &&
                  EntryWithLabel(g.entries, lab).Some? &&
                  r.value == Found(t.name, g.name, lab, EntryWithLabel(g.entries, lab).value.desc);
      var e := EntryWithLabel(g.entries, lab).value;
      assert e in g.entries && e.name == lab;
    } else if lab !in Temporary {
      forall t, g, e | t in taxonomies && g in t.groups && e in g.entries ensures e.name != lab {
        EntryMembership(g.entries, lab);
      }
    }
  }

  /** The converse: a label listed first by entry `ei` of group `gi` of
      taxonomy `i` (nothing earlier in the search order lists it) is
      reported with that taxonomy, group and description. */
  lemma FindLabelFirst(taxonomies: seq<Taxonomy>, lab: string, i: nat, gi: nat, ei: nat)
    requires !Digits(lab) && lab !in Temporary
    requires i < |taxonomies| && gi < |taxonomies[i].groups|
    requires ei < |taxonomies[i].groups[gi].entries|
    requires taxonomies[i].groups[gi].entries[ei].name == lab
    requires forall j, g, e | 0 <= j < i && g in taxonomies[j].groups && e in g.entries :: e.name != lab
    requires forall h, e | 0 <= h < gi && e in taxonomies[i].groups[h].entries :: e.name != lab
    requires forall k | 0 <= k < ei :: taxonomies[i].groups[gi].entries[k].name != lab
    ensures var g := taxonomies[i].groups[gi];
            FindLabel(taxonomies, lab) == Some(Found(taxonomies[i].name, g.name, lab, g.entries[ei].desc))
    ensures LabelTaxonomy(taxonomies, lab) == Some(taxonomies[i].name)
  {
    var t := taxonomies[i];
    var g := t.groups[gi];
    FirstEntry(g.entries, lab, ei);
    FirstGroup(t.groups, lab, gi);
    assert FoundIn(t, lab) == Some(Found(t.name, g.name, lab, g.entries[ei].desc));
    EarlierUnlisted(taxonomies, lab, i);
    FirstTaxonomy(taxonomies, lab, i);
  }

  /** Taxonomies that list the label nowhere give nothing to report. */
  lemma EarlierUnlisted(taxonomies: seq<Taxonomy>, lab: string, i: nat)
    requires i <= |taxonomies|
    requires forall j, g, e | 0 <= j < i && g in taxonomies[j].groups && e in g.entries :: e.name != lab
    ensures forall j | 0 <= j < i :: FoundIn(taxonomies[j], lab).None?
  {
    forall j | 0 <= j < i ensures FoundIn(taxonomies[j], lab).None? {
      forall h | 0 <= h < |taxonomies[j].groups|
        ensures EntryWithLabel(taxonomies[j].groups[h].entries, lab).None?
      {
        EntryMembership(taxonomies[j].groups[h].entries, lab);
      }
    }
  }

  /** The search reports what the first taxonomy listing the label does. */
  lemma FirstTaxonomy(taxonomies: seq<Taxonomy>, lab: string, i: nat)
    requires i < |taxonomies| && FoundIn(taxonomies[i], lab).Some?
    requires forall j | 0 <= j < i :: FoundIn(taxonomies[j], lab).None?
    ensures Search(taxonomies, lab) == FoundIn(taxonomies[i], lab)
  {
    var r := Search(taxonomies, lab);
    var t := taxonomies[i];
    var k :| 0 <= k < |t.groups| && EntryWithLabel(t.groups[k].entries, lab).Some?;
    assert t in taxonomies && t.groups[k] in t.groups;
    var i' :| 0 <= i' < |taxonomies| && FoundIn(taxonomies[i'], lab) == r &&
              forall j | 0 <= j < i' :: FoundIn(taxonomies[j], lab).None?;
    assert i' == i;
  }

  /** The entry search stops at the first entry with the label. */
  lemma {:induction false} FirstEntry(entries: seq<Entry>, lab: string, ei: nat)
    requires ei < |entries| && entries[ei].name == lab
    requires forall k | 0 <= k < ei :: entries[k].name != lab
    ensures EntryWithLabel(entries, lab) == Some(entries[ei])
  {
    if ei > 0 {
      var rest := entries[1..];
      assert entries[0].name != lab;
      assert forall k | 0 <= k < ei - 1 :: rest[k] == entries[k + 1];
      FirstEntry(rest, lab, ei - 1);
    }
  }

  /** The group search stops at the first group listing the label. */
  lemma FirstGroup(groups: seq<Group>, lab: string, gi: nat)
    requires gi < |groups| && EntryWithLabel(groups[gi].entries, lab).Some?
    requires forall h, e | 0 <= h < gi && e in groups[h].entries :: e.name != lab
    ensures GroupWithLabel(groups, lab) == Some(gi)
  {
    forall h | 0 <= h < gi ensures EntryWithLabel(groups[h].entries, lab).None? {
      EntryMembership(groups[h].entries, lab);
    }
  }

  // ---------------------------------------------------------------------
  // Taxonomy predicates
  // ---------------------------------------------------------------------

  /** The groups of the taxonomy called `name` (`name in config.taxonomy`). */
  function Named(taxonomies: seq<Taxonomy>, name: string): (r: Option<seq<Group>>)
    ensures r.None? <==> forall t | t in taxonomies :: t.name != name
    ensures r.Some? ==> exists t | t in taxonomies :: t.name == name && t.groups == r.value
  {
    if taxonomies == [] then None
    else if taxonomies[0].name == name then Some(taxonomies[0].groups)
    else
      var r := Named(taxonomies[1..], name);
      assert forall u | u in taxonomies[1..] :: u in taxonomies;
      assert forall u | u in taxonomies :: u == taxonomies[0] || u in taxonomies[1..];
      r
  }

  /** Some entry has the key. */
  predicate HasKey(entries: seq<Entry>, key: string) {
    exists e | e in entries :: e.key == key
  }

  /** A group holds the key: in one of its subgroups when it has any,
      otherwise among its own entries. */
  predicate GroupHas(g: Group, key: string) {
    if |g.subgroups| > 0 then exists sg | sg in g.subgroups :: HasKey(sg.entries, key)
    else HasKey(g.entries, key)
  }

  /** A group holds the key where it is shown: the group is expanded, and so
      is the subgroup holding the key when there are subgroups. */
  predicate GroupShows(g: Group, key: string) {
    if |g.subgroups| > 0 then
      exists sg | sg in g.subgroups :: HasKey(sg.entries, key) && g.expanded && sg.expanded
    else HasKey(g.entries, key) && g.expanded
  }

  /** The search of `taxonomy_has_label` over a list of groups. */
  function AnyHas(groups: seq<Group>, key: string): (r: bool)
    ensures r <==> exists g | g in groups :: GroupHas(g, key)
  {
    if groups == [] then false
    else
      assert forall g | g in groups :: g == groups[0] || g in groups[1..];
      GroupHas(groups[0], key) || AnyHas(groups[1..], key)
  }

  /** The search of `taxonomy_is_expanded` over a list of groups. */
  function AnyShows(groups: seq<Group>, key: string): (r: bool)
    ensures r <==> exists g | g in groups :: GroupShows(g, key)
  {
    if groups == [] then false
    else
      assert forall g | g in groups :: g == groups[0] || g in groups[1..];
      GroupShows(groups[0], key) || AnyShows(groups[1..], key)
  }

  /** `taxonomy_has_label`: false for an unknown taxonomy, otherwise whether
      one of its groups holds an entry whose `key` is the label. */
  function TaxonomyHasLabel(taxonomies: seq<Taxonomy>, name: string, lab: string): (r: bool)
    ensures (forall t | t in taxonomies :: t.name != name) ==> !r
    ensures r ==> exists t, g | t in taxonomies && g in t.groups :: t.name == name && GroupHas(g, lab)
  {
    match Named(taxonomies, name)
    case None => false
    case Some(groups) => AnyHas(groups, lab)
  }

  /** `taxonomy_is_expanded`: like `taxonomy_has_label`, but the group, and
      its subgroup when there is one, must also be expanded. */
  function TaxonomyIsExpanded(taxonomies: seq<Taxonomy>, name: string, lab: string): (r: bool)
    ensures (forall t | t in taxonomies :: t.name != name) ==> !r
    ensures r ==> exists t, g | t in taxonomies && g in t.groups :: t.name == name && GroupShows(g, lab)
  {
    match Named(taxonomies, name)
    case None => false
    case Some(groups) => AnyShows(groups, lab)
  }

  /** The taxonomies are the keys of one record, so no name repeats. */
  predicate UniqueNames(taxonomies: seq<Taxonomy>) {
    forall i, j | 0 <= i < j < |taxonomies| :: taxonomies[i].name != taxonomies[j].name
  }

  /** With unique names, the taxonomy called `name` is the only one
      carrying that name. */
  lemma NamedUnique(taxonomies: seq<Taxonomy>, name: string, t: Taxonomy)
    requires UniqueNames(taxonomies) && t in taxonomies && t.name == name
    ensures Named(taxonomies, name) == Some(t.groups)
  {
    var r := Named(taxonomies, name);
    var u :| u in taxonomies && u.name == name && u.groups == r.value;
    var i :| 0 <= i < |taxonomies| && taxonomies[i] == t;
    var j :| 0 <= j < |taxonomies| && taxonomies[j] == u;
    assert i == j;
  }

  /** `taxonomy_has_label` holds exactly when a group of the named taxonomy
      holds the key, and `taxonomy_is_expanded` exactly when such a group
      also shows it. */
  lemma TaxonomyLookupExact(taxonomies: seq<Taxonomy>, name: string, lab: string)
    requires UniqueNames(taxonomies)
    ensures TaxonomyHasLabel(taxonomies, name, lab) <==>
              exists t, g | t in taxonomies && g in t.groups :: t.name == name && GroupHas(g, lab)
    ensures TaxonomyIsExpanded(taxonomies, name, lab) <==>
              exists t, g | t in taxonomies && g in t.groups :: t.name == name && GroupShows(g, lab)
  {
    if exists t, g | t in taxonomies && g in t.groups :: t.name == name && GroupHas(g, lab) {
      var t, g :| t in taxonomies && g in t.groups && t.name == name && GroupHas(g, lab);
      NamedUnique(taxonomies, name, t);
    }
    if exists t, g | t in taxonomies && g in t.groups :: t.name == name && GroupShows(g, lab) {
      var t, g :| t in taxonomies && g in t.groups && t.name == name && GroupShows(g, lab);
      NamedUnique(taxonomies, name, t);
    }
  }

  /** A label shown expanded is a label of the taxonomy. */
  lemma ExpandedHasLabel(taxonomies: seq<Taxonomy>, name: string, lab: string)
    ensures TaxonomyIsExpanded(taxonomies, name, lab) ==> TaxonomyHasLabel(taxonomies, name, lab)
  {
    match Named(taxonomies, name)
    case None =>
    case Some(groups) =>
      if AnyShows(groups, lab) {
        var g :| g in groups && GroupShows(g, lab);
        assert GroupHas(g, lab);
      }
  }

  /** In a group with subgroups only the subgroups count: a key listed among
      the group's own entries but in no subgroup is not found. */
  lemma SubgroupsShadowEntries(g: Group, key: string)
    requires |g.subgroups| > 0
    requires forall sg | sg in g.subgroups :: !HasKey(sg.entries, key)
    ensures !GroupHas(g, key) && !GroupShows(g, key)
  {
  }
}
