/**
 * The enabling rule of the wizard's navigation sidebar
 * (`src/components/IdeaNavigationSidebar.tsx`): a fixed table of nine steps,
 * the order of the current step, the re-computed `isDisabled` flags and how
 * each entry is rendered.
 */
module Navigation {
  import opened Strings

  /** The `currentStep` union, in wizard order. */
  datatype Step =
    | Evaluation | PainPoints | Solution | Prototype | Monetization
    | LandingPages | AdsCampaign | MvpDocument | Testing

  const Steps: seq<Step> :=
    [Evaluation, PainPoints, Solution, Prototype, Monetization,
     LandingPages, AdsCampaign, MvpDocument, Testing]

  /** The step's position in the wizard, counting from 1. */
  function Order(s: Step): (n: nat)
    ensures 1 <= n <= 9 && Steps[n - 1] == s
  {
    match s
    case Evaluation => 1
    case PainPoints => 2
    case Solution => 3
    case Prototype => 4
    case Monetization => 5
    case LandingPages => 6
    case AdsCampaign => 7
    case MvpDocument => 8
    case Testing => 9
  }

  /** The string each member of the union is written as (and routed under). */
  function Key(s: Step): string
  {
    match s
    case Evaluation => "evaluation"
    case PainPoints => "pain-points"
    case Solution => "solution"
    case Prototype => "prototype"
    case Monetization => "monetization"
    case LandingPages => "landing-pages"
    case AdsCampaign => "ads-campaign"
    case MvpDocument => "mvp-document"
    case Testing => "testing"
  }

  /** A `NavigationItem` without its icon; `caption` is its `label`. */
  datatype NavItem = NavItem(
    key: string, caption: string, href: string, isActive: bool, isDisabled: bool, order: int)

  function Href(ideaId: string, key: string): string
  {
    "/" + ideaId + "/" + key
  }

  /** `allNavigationItems`, the literal table with its literal `isDisabled` values. */
  function AllItems(ideaId: string, current: Step): seq<NavItem>
  {
    [ NavItem("evaluation", "Initial evaluation", Href(ideaId, "evaluation"), current == Evaluation, false, 1),
      NavItem("pain-points", "Pain Points", Href(ideaId, "pain-points"), current == PainPoints, false, 2),
      NavItem("solution", "Solution", Href(ideaId, "solution"), current == Solution, true, 3),
      NavItem("prototype", "Prototype", Href(ideaId, "prototype"), current == Prototype, true, 4),
      NavItem("monetization", "Monetization", Href(ideaId, "monetization"), current == Monetization, true, 5),
      NavItem("landing-pages", "Landing Pages", Href(ideaId, "landing-pages"), current == LandingPages, true, 6),
      NavItem("ads-campaign", "Ads Campaign", Href(ideaId, "ads-campaign"), current == AdsCampaign, true, 7),
      NavItem("mvp-document", "MVP Document", Href(ideaId, "mvp-document"), current == MvpDocument, true, 8),
      NavItem("testing", "Testing", Href(ideaId, "testing"), current == Testing, true, 9) ]
  }

  /** `items.find(item => item.isActive)`: the first active item. */
  function FindActive(items: seq<NavItem>): (r: Option<NavItem>)
    ensures r.Some? ==> r.value in items && r.value.isActive
    ensures r.Some? ==> exists i | 0 <= i < |items| ::
                          items[i] == r.value && forall k | 0 <= k < i :: !items[k].isActive
    ensures r.None? ==> forall i | 0 <= i < |items| :: !items[i].isActive
  {
    if items == [] then None
    else if items[0].isActive then Some(items[0])
    else FindActive(items[1..])
  }

  /** `allNavigationItems.find(item => item.isActive)?.order || 0`; for a
      number `x`, `x || 0` is `x`. */
  function CurrentStepOrder(items: seq<NavItem>): int
  {
    match FindActive(items)
    case None => 0
    case Some(item) => item.order
  }

  /** The body of the `map` callback: only `isDisabled` is recomputed. */
  function Reenable(item: NavItem, current: Step, currentOrder: int): NavItem
  {
    if current == Testing then item.(isDisabled := !item.isActive && item.order != 9)
    else item.(isDisabled := item.order > currentOrder + 1)
  }

  /** `navigationItems`. */
  function NavigationItems(ideaId: string, current: Step): seq<NavItem>
  {
    var all := AllItems(ideaId, current);
    var currentOrder := CurrentStepOrder(all);
    seq(|all|, i requires 0 <= i < |all| => Reenable(all[i], current, currentOrder))
  }

  /** How one list entry is drawn: greyed out, highlighted, or a link. */
  datatype Entry =
    | Muted(key: string, caption: string)
    | Highlighted(key: string, caption: string)
    | Link(key: string, caption: string, href: string)

  /** The render callback's branches, in their order. */
  function RenderItem(item: NavItem): Entry
  {
    if item.isDisabled then Muted(item.key, item.caption)
    else if item.isActive then Highlighted(item.key, item.caption)
    else if item.href != "" && !item.isDisabled then Link(item.key, item.caption, item.href)
    else Muted(item.key, item.caption)
  }

  /** The sidebar: placeholder rows while loading, otherwise one entry per item. */
  datatype View = Skeleton | Menu(entries: seq<Entry>)

  function Sidebar(ideaId: string, current: Step, isLoading: bool): View
  {
    if isLoading then Skeleton
    else
      var items := NavigationItems(ideaId, current);
      Menu(seq(|items|, i requires 0 <= i < |items| => RenderItem(items[i])))
  }

  // ---------------------------------------------------------------------
  // Properties
  // ---------------------------------------------------------------------

  /** The table lists the nine steps in wizard order, each under its key, with
      orders 1..9 and links to `/<ideaId>/<key>`; exactly the current step is active. */
  lemma TableShape(ideaId: string, current: Step)
    ensures |AllItems(ideaId, current)| == 9
    ensures forall i | 0 <= i < 9 ::
              && AllItems(ideaId, current)[i].order == i + 1
              && AllItems(ideaId, current)[i].key == Key(Steps[i])
              && AllItems(ideaId, current)[i].href == Href(ideaId, Key(Steps[i]))
              && (AllItems(ideaId, current)[i].isActive <==> Steps[i] == current)
  {
  }

  /** The order the sidebar works from is the current step's own order. */
  lemma CurrentOrderIsStepOrder(ideaId: string, current: Step)
    ensures CurrentStepOrder(AllItems(ideaId, current)) == Order(current)
  {
    var all := AllItems(ideaId, current);
    TableShape(ideaId, current);
    StepsInOrder();
    var i := Order(current) - 1;
    assert forall k | 0 <= k < i :: !all[k].isActive;
    FirstActive(all, i);
  }

  /** Each step stands in the list at its own order. */
  lemma StepsInOrder()
    ensures forall k | 0 <= k < 9 :: Order(Steps[k]) == k + 1
  {
  }

  lemma {:induction false} FirstActive(items: seq<NavItem>, i: nat)
    requires i < |items| && items[i].isActive
    requires forall k | 0 <= k < i :: !items[k].isActive
    ensures FindActive(items) == Some(items[i])
  {
    if i > 0 {
      FirstActive(items[1..], i - 1);
    }
  }

  /** Exactly one entry of the final list is active: the current step's. */
  lemma ExactlyOneActive(ideaId: string, current: Step)
    ensures |NavigationItems(ideaId, current)| == 9
    ensures forall i | 0 <= i < 9 ::
              NavigationItems(ideaId, current)[i].isActive <==> i == Order(current) - 1
  {
    TableShape(ideaId, current);
    StepsInOrder();
    OnlyDisabledChanges(ideaId, current);
  }

  /** Mapping changes `isDisabled` only: keys, labels, links, orders, the
      active flag and the list order are those of the table. */
  lemma OnlyDisabledChanges(ideaId: string, current: Step)
    ensures |NavigationItems(ideaId, current)| == |AllItems(ideaId, current)|
    ensures forall i | 0 <= i < |AllItems(ideaId, current)| ::
              NavigationItems(ideaId, current)[i]
              == AllItems(ideaId, current)[i].(isDisabled := NavigationItems(ideaId, current)[i].isDisabled)
  {
  }

  /** Outside the testing step an entry is enabled exactly when its order is
      at most one past the current step's, whatever the table's literal said. */
  lemma EnabledUpToNext(ideaId: string, current: Step)
    requires current != Testing
    ensures forall i | 0 <= i < |NavigationItems(ideaId, current)| ::
              !NavigationItems(ideaId, current)[i].isDisabled <==> i + 1 <= Order(current) + 1
  {
    TableShape(ideaId, current);
    CurrentOrderIsStepOrder(ideaId, current);
  }

  /** On the testing step the testing entry is the only enabled one. */
  lemma TestingAlone(ideaId: string)
    ensures forall i | 0 <= i < |NavigationItems(ideaId, Testing)| ::
              !NavigationItems(ideaId, Testing)[i].isDisabled <==> i == 8
  {
    var all := AllItems(ideaId, Testing);
    var nav := NavigationItems(ideaId, Testing);
    TableShape(ideaId, Testing);
    ExactlyOneActive(ideaId, Testing);
    forall i | 0 <= i < |nav| ensures !nav[i].isDisabled <==> i == 8 {
      assert nav[i] == Reenable(all[i], Testing, CurrentStepOrder(all));
    }
  }

  /** The active entry is never disabled. */
  lemma ActiveEnabled(ideaId: string, current: Step)
    ensures forall i | 0 <= i < |NavigationItems(ideaId, current)| ::
              NavigationItems(ideaId, current)[i].isActive ==> !NavigationItems(ideaId, current)[i].isDisabled
  {
    ExactlyOneActive(ideaId, current);
    if current != Testing {
      EnabledUpToNext(ideaId, current);
    } else {
      TestingAlone(ideaId);
    }
  }

  function CountEnabled(items: seq<NavItem>): nat
  {
    if items == [] then 0
    else (if items[0].isDisabled then 0 else 1) + CountEnabled(items[1..])
  }

  /** In a run of items with consecutive orders base+1, base+2, ..., those
      enabled up to `bound` number `bound - base`, clamped to the run. */
  lemma {:induction false} CountConsecutive(items: seq<NavItem>, base: int, bound: int)
    requires forall i | 0 <= i < |items| ::
               items[i].order == base + i + 1 && (items[i].isDisabled <==> items[i].order > bound)
    ensures CountEnabled(items)
            == if bound - base < 0 then 0 else if bound - base > |items| then |items| else bound - base
  {
    if items != [] {
      CountConsecutive(items[1..], base + 1, bound);
    }
  }

  /** Outside the testing step, the current step and all before it plus the
      next one are enabled: order + 1 entries. */
  lemma EnabledCount(ideaId: string, current: Step)
    requires current != Testing
    ensures CountEnabled(NavigationItems(ideaId, current)) == Order(current) + 1
  {
    var nav := NavigationItems(ideaId, current);
    TableShape(ideaId, current);
    EnabledUpToNext(ideaId, current);
    CountConsecutive(nav, 0, Order(current) + 1);
  }

  /** Exactly the enabled, inactive entries are drawn as links, each to
      `/<ideaId>/<key>`. */
  lemma LinksAreEnabledInactive(ideaId: string, current: Step, isLoading: bool)
    requires !isLoading
    ensures Sidebar(ideaId, current, isLoading).Menu?
    ensures |Sidebar(ideaId, current, isLoading).entries| == 9
    ensures forall i | 0 <= i < 9 ::
              var item := NavigationItems(ideaId, current)[i];
              var entry := Sidebar(ideaId, current, isLoading).entries[i];
              && entry.key == Key(Steps[i])
              && (entry.Link? <==> !item.isDisabled && !item.isActive)
              && (entry.Link? ==> entry.href == Href(ideaId, Key(Steps[i])))
              && (entry.Highlighted? <==> item.isActive)
  {
    TableShape(ideaId, current);
    ActiveEnabled(ideaId, current);
  }
}
