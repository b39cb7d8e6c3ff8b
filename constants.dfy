/**
 * The three enumerations of src/constants.py and their sort-rank tables.
 * Each enumeration is a `str` Enum in the source: a member compares equal
 * to its string value, which is modelled by `...Value` and `Parse...`.
 */
module Constants {
  import opened Wrappers

  datatype TaskStatus = Completed | NotCompleted
  datatype TaskPriority = Low | Normal | High
  datatype TaskCategory = Work | Study | Personal

  /** Every member, in declaration order. */
  const AllStatuses: seq<TaskStatus> := [Completed, NotCompleted]
  const AllPriorities: seq<TaskPriority> := [Low, Normal, High]
  const AllCategories: seq<TaskCategory> := [Work, Study, Personal]

  /** The rank tables, written as the members listed by increasing rank. */
  const StatusSortOrder: seq<TaskStatus> := [NotCompleted, Completed]
  const PrioritySortOrder: seq<TaskPriority> := [High, Normal, Low]
  const CategorySortOrder: seq<TaskCategory> := [Work, Study, Personal]

  // ---------------------------------------------------------------- values

  function StatusValue(s: TaskStatus): (v: string)
  {
    match s
    case Completed => "completed"
    case NotCompleted => "not_completed"
  }

  function PriorityValue(p: TaskPriority): (v: string)
  {
    match p
    case Low => "low"
    case Normal => "normal"
    case High => "high"
  }

  function CategoryValue(c: TaskCategory): (v: string)
  {
    match c
    case Work => "work"
    case Study => "study"
    case Personal => "personal"
  }

  /** Enum lookup by value, as pydantic does when it validates a string. */
  function ParseStatus(v: string): (r: Option<TaskStatus>)
    ensures r.Some? ==> StatusValue(r.value) == v
    ensures r.None? <==> (forall s :: s in AllStatuses ==> v != StatusValue(s))
  {
    if v == "completed" then Some(Completed)
    else if v == "not_completed" then Some(NotCompleted)
    else None
  }

  function ParsePriority(v: string): (r: Option<TaskPriority>)
    ensures r.Some? ==> PriorityValue(r.value) == v
    ensures r.None? <==> (forall p :: p in AllPriorities ==> v != PriorityValue(p))
  {
    if v == "low" then Some(Low)
    else if v == "normal" then Some(Normal)
    else if v == "high" then Some(High)
    else None
  }

  function ParseCategory(v: string): (r: Option<TaskCategory>)
    ensures r.Some? ==> CategoryValue(r.value) == v
    ensures r.None? <==> (forall c :: c in AllCategories ==> v != CategoryValue(c))
  {
    if v == "work" then Some(Work)
    else if v == "study" then Some(Study)
    else if v == "personal" then Some(Personal)
    else None
  }

  // ---------------------------------------------------------------- ranks

  /** STATUS_SORT_ORDER: the rank is the member's place in StatusSortOrder. */
  function StatusRank(s: TaskStatus): (r: nat)
    ensures r < |StatusSortOrder| && StatusSortOrder[r] == s
  {
    match s
    case NotCompleted => 0
    case Completed => 1
  }

  /** PRIORITY_SORT_ORDER */
  function PriorityRank(p: TaskPriority): (r: nat)
    ensures r < |PrioritySortOrder| && PrioritySortOrder[r] == p
  {
    match p
    case High => 0
    case Normal => 1
    case Low => 2
  }

  /** CATEGORY_SORT_ORDER */
  function CategoryRank(c: TaskCategory): (r: nat)
    ensures r < |CategorySortOrder| && CategorySortOrder[r] == c
  {
    match c
    case Work => 0
    case Study => 1
    case Personal => 2
  }

  // ---------------------------------------------------------------- lemmas

  /** Validating a member's value gives the member back. */
  lemma ValuesRoundTrip()
    ensures forall s: TaskStatus :: ParseStatus(StatusValue(s)) == Some(s)
    ensures forall p: TaskPriority :: ParsePriority(PriorityValue(p)) == Some(p)
    ensures forall c: TaskCategory :: ParseCategory(CategoryValue(c)) == Some(c)
  {
    forall s: TaskStatus ensures ParseStatus(StatusValue(s)) == Some(s) {
      match s
      case Completed =>
      case NotCompleted =>
    }
    forall p: TaskPriority ensures ParsePriority(PriorityValue(p)) == Some(p) {
      match p
      case Low =>
      case Normal =>
      case High =>
    }
    forall c: TaskCategory ensures ParseCategory(CategoryValue(c)) == Some(c) {
      match c
      case Work =>
      case Study =>
      case Personal =>
    }
  }

  /** Two statuses, three priorities, three categories, each listed once. */
  lemma EnumsAreClosed()
    ensures |AllStatuses| == 2 && |AllPriorities| == 3 && |AllCategories| == 3
    ensures forall s: TaskStatus :: s in AllStatuses
    ensures forall p: TaskPriority :: p in AllPriorities
    ensures forall c: TaskCategory :: c in AllCategories
    ensures forall i, j :: 0 <= i < j < |AllStatuses| ==> AllStatuses[i] != AllStatuses[j]
    ensures forall i, j :: 0 <= i < j < |AllPriorities| ==> AllPriorities[i] != AllPriorities[j]
    ensures forall i, j :: 0 <= i < j < |AllCategories| ==> AllCategories[i] != AllCategories[j]
  {
    forall s: TaskStatus ensures s in AllStatuses {
      match s
      case Completed => assert s == AllStatuses[0];
      case NotCompleted => assert s == AllStatuses[1];
    }
    forall p: TaskPriority ensures p in AllPriorities {
      match p
      case Low => assert p == AllPriorities[0];
      case Normal => assert p == AllPriorities[1];
      case High => assert p == AllPriorities[2];
    }
    forall c: TaskCategory ensures c in AllCategories {
      match c
      case Work => assert c == AllCategories[0];
      case Study => assert c == AllCategories[1];
      case Personal => assert c == AllCategories[2];
    }
  }

  /** Distinct members have distinct string values. */
  lemma ValuesInjective()
    ensures forall a: TaskStatus, b: TaskStatus :: StatusValue(a) == StatusValue(b) ==> a == b
    ensures forall a: TaskPriority, b: TaskPriority :: PriorityValue(a) == PriorityValue(b) ==> a == b
    ensures forall a: TaskCategory, b: TaskCategory :: CategoryValue(a) == CategoryValue(b) ==> a == b
  {
    ValuesRoundTrip();
  }

  /** Each rank table is injective, so comparing ranks is a strict total order. */
  lemma RanksInjective()
    ensures forall a: TaskStatus, b: TaskStatus :: StatusRank(a) == StatusRank(b) ==> a == b
    ensures forall a: TaskPriority, b: TaskPriority :: PriorityRank(a) == PriorityRank(b) ==> a == b
    ensures forall a: TaskCategory, b: TaskCategory :: CategoryRank(a) == CategoryRank(b) ==> a == b
  {
  }

  /** high < normal < low, not_completed < completed, work < study < personal. */
  lemma RankOrder()
    ensures PriorityRank(High) < PriorityRank(Normal) < PriorityRank(Low)
    ensures StatusRank(NotCompleted) < StatusRank(Completed)
    ensures CategoryRank(Work) < CategoryRank(Study) < CategoryRank(Personal)
  {
  }
}
