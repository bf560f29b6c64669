/** The architecture classifier (`detect_architecture_from_keys`): an ordered,
    first-match-wins list of tests over a header's tensor names. The first
    tests look at the lower-cased names; the exact-key, SDXL and SD 1.x/2.x
    tests look at the names as given. */
module Architecture {

  import opened Strings

  datatype Arch = StableCascade | Pony | Flux | Sdxl | Sd1x | Unknown

  function Label(a: Arch): string {
    match a
    case StableCascade => "Stable Cascade"
    case Pony => "Pony"
    case Flux => "Flux"
    case Sdxl => "SDXL"
    case Sd1x => "SD 1.x/2.x"
    case Unknown => "Unknown"
  }

  const FluxExactKey: string := "model.diffusion_model.joint_blocks.0.x_block.attn.qkv.weight"
  const SdxlMarker: string := "down_blocks.2.attentions.1.transformer_blocks.9"
  const Sd1xMarker: string := "cond_stage_model.transformer.text_model.embeddings"

  /** `any(needle in k for k in keys)`. */
  predicate AnyContains(keys: seq<string>, needle: string) {
    exists k :: k in keys && IsInfix(needle, k)
  }

  function LowerAll(keys: seq<string>): (lowered: seq<string>)
    ensures |lowered| == |keys|
    ensures forall i :: 0 <= i < |keys| ==> lowered[i] == Lower(keys[i])
  {
    seq(|keys|, i requires 0 <= i < |keys| => Lower(keys[i]))
  }

  /** `detect_architecture_from_keys(metadata_keys)`. */
  function DetectArchitecture(keys: seq<string>): Arch {
    var lowered := LowerAll(keys);
    if AnyContains(lowered, "cascade") || AnyContains(lowered, "effnet") then StableCascade
    else if AnyContains(lowered, "pony") then Pony
    else if FluxExactKey in keys then Flux
    else if AnyContains(lowered, "double_blocks") || AnyContains(lowered, "single_blocks") then Flux
    else if AnyContains(keys, SdxlMarker) then Sdxl
    else if AnyContains(keys, Sd1xMarker) then Sd1x
    else Unknown
  }

  /** Reference definition: the evidence each family is recognised by, one
      tensor name at a time. */
  predicate Signals(a: Arch, k: string) {
    match a
    case StableCascade => IsInfix("cascade", Lower(k)) || IsInfix("effnet", Lower(k))
    case Pony => IsInfix("pony", Lower(k))
    case Flux => k == FluxExactKey || IsInfix("double_blocks", Lower(k)) || IsInfix("single_blocks", Lower(k))
    case Sdxl => IsInfix(SdxlMarker, k)
    case Sd1x => IsInfix(Sd1xMarker, k)
    case Unknown => false
  }

  predicate Matches(a: Arch, keys: seq<string>) {
    exists i :: 0 <= i < |keys| && Signals(a, keys[i])
  }

  /** The tests in the order they are tried. */
  const Priority: seq<Arch> := [StableCascade, Pony, Flux, Sdxl, Sd1x]

  function FirstMatch(candidates: seq<Arch>, keys: seq<string>): Arch {
    if candidates == [] then Unknown
    else if Matches(candidates[0], keys) then candidates[0]
    else FirstMatch(candidates[1..], keys)
  }

  /** `any(needle in k for k in keys)` is a test on the key positions. */
  lemma AnyContainsAt(keys: seq<string>, needle: string)
    ensures AnyContains(keys, needle) <==> exists i :: 0 <= i < |keys| && IsInfix(needle, keys[i])
  {
    if AnyContains(keys, needle) {
      var k :| k in keys && IsInfix(needle, k);
      var i :| 0 <= i < |keys| && keys[i] == k;
    }
  }

  lemma AnyContainsLowered(keys: seq<string>, needle: string)
    ensures AnyContains(LowerAll(keys), needle) <==> exists i :: 0 <= i < |keys| && IsInfix(needle, Lower(keys[i]))
  {
    AnyContainsAt(LowerAll(keys), needle);
  }

  lemma CascadeTest(keys: seq<string>)
    ensures AnyContains(LowerAll(keys), "cascade") || AnyContains(LowerAll(keys), "effnet") <==> Matches(StableCascade, keys)
  {
    AnyContainsLowered(keys, "cascade");
    AnyContainsLowered(keys, "effnet");
  }

  lemma PonyTest(keys: seq<string>)
    ensures AnyContains(LowerAll(keys), "pony") <==> Matches(Pony, keys)
  {
    AnyContainsLowered(keys, "pony");
  }

  lemma FluxTest(keys: seq<string>)
    ensures FluxExactKey in keys || AnyContains(LowerAll(keys), "double_blocks") || AnyContains(LowerAll(keys), "single_blocks")
            <==> Matches(Flux, keys)
  {
    AnyContainsLowered(keys, "double_blocks");
    AnyContainsLowered(keys, "single_blocks");
    if FluxExactKey in keys {
      var i :| 0 <= i < |keys| && keys[i] == FluxExactKey;
      assert Signals(Flux, keys[i]);
    }
  }

  lemma SdxlTest(keys: seq<string>)
    ensures AnyContains(keys, SdxlMarker) <==> Matches(Sdxl, keys)
  {
    AnyContainsAt(keys, SdxlMarker);
  }

  lemma Sd1xTest(keys: seq<string>)
    ensures AnyContains(keys, Sd1xMarker) <==> Matches(Sd1x, keys)
  {
    AnyContainsAt(keys, Sd1xMarker);
  }

  /** The priority list tried one family after another. */
  lemma FirstMatchOfPriority(keys: seq<string>)
    ensures FirstMatch(Priority, keys) ==
            if Matches(StableCascade, keys) then StableCascade
            else if Matches(Pony, keys) then Pony
            else if Matches(Flux, keys) then Flux
            else if Matches(Sdxl, keys) then Sdxl
            else if Matches(Sd1x, keys) then Sd1x
            else Unknown
  {
    assert Priority[1..] == [Pony, Flux, Sdxl, Sd1x];
    assert Priority[1..][1..] == [Flux, Sdxl, Sd1x];
    assert Priority[1..][1..][1..] == [Sdxl, Sd1x];
    assert Priority[1..][1..][1..][1..] == [Sd1x];
    assert Priority[1..][1..][1..][1..][1..] == [];
    assert FirstMatch([Sd1x], keys) == if Matches(Sd1x, keys) then Sd1x else Unknown;
    assert FirstMatch([Sdxl, Sd1x], keys) ==
           if Matches(Sdxl, keys) then Sdxl else FirstMatch([Sd1x], keys);
    assert FirstMatch([Flux, Sdxl, Sd1x], keys) ==
           if Matches(Flux, keys) then Flux else FirstMatch([Sdxl, Sd1x], keys);
    assert FirstMatch([Pony, Flux, Sdxl, Sd1x], keys) ==
           if Matches(Pony, keys) then Pony else FirstMatch([Flux, Sdxl, Sd1x], keys);
  }

  /** The classifier is the first family, in priority order, that some key signals. */
  lemma DetectIsFirstMatch(keys: seq<string>)
    ensures DetectArchitecture(keys) == FirstMatch(Priority, keys)
  {
    CascadeTest(keys);
    PonyTest(keys);
    FluxTest(keys);
    SdxlTest(keys);
    Sd1xTest(keys);
    FirstMatchOfPriority(keys);
  }

  /** First match wins: a result other than "Unknown" is the first family
      in the list that some key signals, and "Unknown" means no family is. */
  lemma {:induction false} FirstMatchWins(candidates: seq<Arch>, keys: seq<string>)
    requires Unknown !in candidates
    ensures var a := FirstMatch(candidates, keys);
            && (a == Unknown <==> forall c :: c in candidates ==> !Matches(c, keys))
            && (a != Unknown ==>
                  exists i :: 0 <= i < |candidates| && candidates[i] == a && Matches(a, keys) &&
                              forall j :: 0 <= j < i ==> !Matches(candidates[j], keys))
  {
    if candidates != [] && !Matches(candidates[0], keys) {
      FirstMatchWins(candidates[1..], keys);
      assert forall c :: c in candidates <==> c == candidates[0] || c in candidates[1..];
      var a := FirstMatch(candidates, keys);
      if a != Unknown {
        var i :| 0 <= i < |candidates[1..]| && candidates[1..][i] == a && Matches(a, keys) &&
                 forall j :: 0 <= j < i ==> !Matches(candidates[1..][j], keys);
        assert forall j :: 1 <= j < i + 1 ==> candidates[j] == candidates[1..][j - 1];
        assert candidates[i + 1] == a;
      }
    } else if candidates != [] {
      assert candidates[0] in candidates;
    }
  }

  /** The result is always one of the six labels, and no keys at all give "Unknown". */
  lemma ResultIsOneOfSixLabels(keys: seq<string>)
    ensures Label(DetectArchitecture(keys)) in
            {"Stable Cascade", "Pony", "Flux", "SDXL", "SD 1.x/2.x", "Unknown"}
    ensures keys == [] ==> DetectArchitecture(keys) == Unknown
  {
  }

  /** A key mentioning "cascade" or "effnet", in any case, decides
      "Stable Cascade" whatever the other keys, Flux keys included. */
  lemma CascadeDominates(keys: seq<string>, i: nat)
    requires i < |keys| && (IsInfix("cascade", Lower(keys[i])) || IsInfix("effnet", Lower(keys[i])))
    ensures DetectArchitecture(keys) == StableCascade
  {
    assert LowerAll(keys)[i] in LowerAll(keys);
  }
}
