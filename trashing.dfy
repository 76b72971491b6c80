/**
 * The trashing options of cMemoryManager: which events poison memory
 * (eTrashing, a flag mask) and with which byte (eTrashingValue).
 */
module TrashingOptions {

  datatype Trashing = None | OnInitialization | OnAllocation | OnDeallocation | OnAll
  {
    /** The eTrashing value: the flag mask of this option. */
    function Mask(): (m: bv8)
      ensures m == 0 <==> this == None
      ensures m & 7 == m
    {
      match this
      case None => 0
      case OnInitialization => 1 << 0
      case OnAllocation => 1 << 1
      case OnDeallocation => 1 << 2
      case OnAll => (1 << 0) | (1 << 1) | (1 << 2)
    }

    /** The eTrashingValue of this option: the poison byte written when it fires. */
    function Value(): (v: bv8)
      ensures v == 0xFF <==> this == None || this == OnAll
    {
      match this
      case None => 0xFF
      case OnInitialization => 0xCD
      case OnAllocation => 0xAA
      case OnDeallocation => 0xDD
      case OnAll => 0xFF
    }

    /** The three events that poison memory; None and OnAll are not events. */
    predicate IsTrigger() {
      this == OnInitialization || this == OnAllocation || this == OnDeallocation
    }
  }

  /** The test `static_cast<int>(m_trashing) & static_cast<int>(trigger)` of the manager. */
  predicate Fires(policy: Trashing, trigger: Trashing) {
    policy.Mask() & trigger.Mask() != 0
  }

  /** The constructor's default argument. */
  const DefaultTrashing: Trashing := OnAll

  /** The three triggers are the single bits 1, 2 and 4, so no two of them overlap. */
  lemma TriggersAreDistinctBits()
    ensures OnInitialization.Mask() == 1 && OnAllocation.Mask() == 2 && OnDeallocation.Mask() == 4
    ensures OnInitialization.Mask() & OnAllocation.Mask() == 0
    ensures OnInitialization.Mask() & OnDeallocation.Mask() == 0
    ensures OnAllocation.Mask() & OnDeallocation.Mask() == 0
  {
  }

  /** OnAll is the union of the three triggers. */
  lemma OnAllIsUnion()
    ensures OnAll.Mask() == OnInitialization.Mask() | OnAllocation.Mask() | OnDeallocation.Mask()
    ensures OnAll.Mask() == 7
  {
  }

  /** A named option fires for a trigger exactly when it is that trigger or OnAll; None never fires. */
  lemma FiresExactly(policy: Trashing, trigger: Trashing)
    requires trigger.IsTrigger()
    ensures Fires(policy, trigger) <==> policy == trigger || policy == OnAll
    ensures !Fires(None, trigger) && !Fires(policy, None)
  {
  }

  /** With the default policy every trigger fires. */
  lemma DefaultFiresEveryTrigger(trigger: Trashing)
    requires trigger.IsTrigger()
    ensures Fires(DefaultTrashing, trigger)
  {
  }

  /** The poison byte of each trigger, and that the three are distinct. */
  lemma PoisonBytes()
    ensures OnInitialization.Value() == 0xCD
    ensures OnAllocation.Value() == 0xAA
    ensures OnDeallocation.Value() == 0xDD
    ensures None.Value() == 0xFF && OnAll.Value() == 0xFF
  {
  }
}
