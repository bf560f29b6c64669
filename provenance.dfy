/** The provenance merge policy (`pick_effective_value`): the remote value
    wins when non-empty, then the local value, then the legacy value. */
module Provenance {

  import opened Common

  /** Reference definition: the first truthy candidate, or `fallback` when none is. */
  function FirstTruthy(candidates: seq<Text>, fallback: Text): Text
  {
    if candidates == [] then fallback
    else if Truthy(candidates[0]) then candidates[0]
    else FirstTruthy(candidates[1..], fallback)
  }

  /** The first truthy candidate is the one at the least truthy position. */
  lemma {:induction false} FirstTruthyIsLeastTruthy(candidates: seq<Text>, fallback: Text)
    ensures (forall i :: 0 <= i < |candidates| ==> !Truthy(candidates[i])) ==>
              FirstTruthy(candidates, fallback) == fallback
    ensures forall i :: 0 <= i < |candidates| && Truthy(candidates[i]) &&
                        (forall j :: 0 <= j < i ==> !Truthy(candidates[j])) ==>
              FirstTruthy(candidates, fallback) == candidates[i]
  {
    if candidates != [] && !Truthy(candidates[0]) {
      FirstTruthyIsLeastTruthy(candidates[1..], fallback);
      forall i | 0 <= i < |candidates| && Truthy(candidates[i]) &&
                 (forall j :: 0 <= j < i ==> !Truthy(candidates[j]))
        ensures FirstTruthy(candidates, fallback) == candidates[i]
      {
        assert i > 0 && candidates[1..][i - 1] == candidates[i];
        assert forall j :: 0 <= j < i - 1 ==> candidates[1..][j] == candidates[j + 1];
      }
      if forall i :: 0 <= i < |candidates| ==> !Truthy(candidates[i]) {
        assert forall i :: 0 <= i < |candidates| - 1 ==> candidates[1..][i] == candidates[i + 1];
      }
    }
  }

  /** `pick_effective_value(civitai_value, local_value, legacy_value)`. */
  function PickEffective(remote: Text, local: Text, legacy: Text): Text {
    if Truthy(remote) then remote
    else if Truthy(local) then local
    else legacy
  }

  /** The merge is the first non-empty of remote and local, falling back to legacy. */
  lemma PickEffectiveIsFirstTruthy(remote: Text, local: Text, legacy: Text)
    ensures PickEffective(remote, local, legacy) == FirstTruthy([remote, local], legacy)
  {
    assert [remote, local][1..] == [local] && [local][1..] == [];
    assert FirstTruthy([local], legacy) == if Truthy(local) then local else legacy;
  }

  /** The priority rule: a non-empty remote value wins whatever the others
      are; otherwise a non-empty local value wins whatever the legacy value
      is; otherwise the legacy value is returned as it is (possibly empty). */
  lemma {:induction false} MergePriority(remote: Text, local: Text, legacy: Text)
    ensures Truthy(remote) ==> PickEffective(remote, local, legacy) == remote
    ensures !Truthy(remote) && Truthy(local) ==> PickEffective(remote, local, legacy) == local
    ensures !Truthy(remote) && !Truthy(local) ==> PickEffective(remote, local, legacy) == legacy
  {
    PickEffectiveIsFirstTruthy(remote, local, legacy);
    FirstTruthyIsLeastTruthy([remote, local], legacy);
  }

  /** The effective value is non-empty exactly when one of the three tiers is. */
  lemma EffectiveEmptyIffAllEmpty(remote: Text, local: Text, legacy: Text)
    ensures Truthy(PickEffective(remote, local, legacy)) <==>
            Truthy(remote) || Truthy(local) || Truthy(legacy)
  {
  }

  /** Storing the effective value as the legacy column and merging again
      gives back the same value: the legacy column kept in sync by the
      writers never changes what a reader sees. */
  lemma MergeStableUnderLegacySync(remote: Text, local: Text, legacy: Text)
    ensures PickEffective(remote, local, PickEffective(remote, local, legacy)) ==
            PickEffective(remote, local, legacy)
  {
  }
}
