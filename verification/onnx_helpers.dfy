/**
 The execution-provider selector of `unicorn_npu/runtime/onnx_helpers.py`: the
 CPU-only override read from the environment, the priority-ordered provider
 list, the per-provider description report and the single-provider check.

 onnxruntime is not modelled; what `ort.get_available_providers()` (with the
 import before it) came to enters as a `ProviderQuery`.
 */
module OnnxHelpers {
  import opened Outcomes
  import Text

  const Cpu := "CPUExecutionProvider"
  const VitisAI := "VitisAIExecutionProvider"
  const OpenVINO := "OpenVINOExecutionProvider"
  const Cuda := "CUDAExecutionProvider"
  const Rocm := "ROCmExecutionProvider"
  const DirectML := "DmlExecutionProvider"

  /** The accelerator providers, most preferred first. */
  const Priority := [VitisAI, OpenVINO, Cuda, Rocm, DirectML]

  /** The lower-cased values of `CPU_ONLY_MODE` that switch the override on. */
  const CpuOnlyValues := ["1", "true", "yes"]

  /** The descriptions `get_provider_info` attaches, by provider name. */
  const Descriptions := map[
    VitisAI := "AMD Ryzen AI NPU",
    OpenVINO := "Intel OpenVINO (CPU/iGPU/NPU)",
    Cuda := "NVIDIA CUDA GPU",
    Rocm := "AMD ROCm GPU",
    Cpu := "CPU execution"]

  /** Why asking onnxruntime for its providers failed. */
  datatype QueryError =
    | NotInstalled              // ImportError on `import onnxruntime`
    | QueryFailed(message: string)

  /** What importing onnxruntime and calling `get_available_providers()` came to. */
  type ProviderQuery = Result<seq<string>, QueryError>

  /** An `ONNXHelper`: the override flag is its only state. */
  datatype Helper = Helper(cpuOnlyMode: bool)

  // ----- The CPU-only override -----

  /** `s` is the lower-case word `w` once its ASCII letters are lowered. */
  predicate EqualsIgnoringCase(s: string, w: string) {
    |s| == |w| && forall k :: 0 <= k < |s| ==> Text.LowerChar(s[k]) == w[k]
  }

  /** `ONNXHelper()`: `env` is the value of `CPU_ONLY_MODE`, None when unset.
      The override is on exactly when the value is `1`, `true` or `yes` in
      any mix of letter case; an unset variable leaves it off. */
  function NewHelper(env: Option<string>): (h: Helper)
    ensures h.cpuOnlyMode <==>
              env.Some? && (EqualsIgnoringCase(env.value, "1") || EqualsIgnoringCase(env.value, "true")
                            || EqualsIgnoringCase(env.value, "yes"))
  {
    var v := env.GetOr("");
    LowerIs(v, "1");
    LowerIs(v, "true");
    LowerIs(v, "yes");
    Helper(Text.Lower(v) in CpuOnlyValues)
  }

  lemma LowerIs(s: string, w: string)
    ensures Text.Lower(s) == w <==> EqualsIgnoringCase(s, w)
  {
    if EqualsIgnoringCase(s, w) {
      assert forall k :: 0 <= k < |s| ==> Text.Lower(s)[k] == w[k];
    }
  }

  // ----- Provider selection (`get_execution_providers`) -----

  /** No name occurs twice. */
  predicate NoDuplicates(xs: seq<string>) {
    forall i, j :: 0 <= i < j < |xs| ==> xs[i] != xs[j]
  }

  /** `xs` is `ys` with some elements deleted, order kept. */
  predicate IsSubsequence(xs: seq<string>, ys: seq<string>)
    decreases |ys|
  {
    || |xs| == 0
    || (&& |ys| > 0
        && if xs[0] == ys[0] then IsSubsequence(xs[1..], ys[1..]) else IsSubsequence(xs, ys[1..]))
  }

  /** The loop that appends each candidate found in `available`: the result
      holds exactly the candidates that are available, in candidate order. */
  function KeepAvailable(candidates: seq<string>, available: seq<string>): (kept: seq<string>)
    ensures forall p :: p in kept <==> p in candidates && p in available
    ensures IsSubsequence(kept, candidates)
    decreases |candidates|
  {
    if |candidates| == 0 then []
    else
      var rest := KeepAvailable(candidates[1..], available);
      if candidates[0] in available then [candidates[0]] + rest else rest
  }

  /** `get_execution_providers(prefer_npu)`. The result is never empty, ends
      with the CPU provider and holds it nowhere else, repeats no name and has
      at most six entries. With the override on, or when onnxruntime cannot be
      asked, it is the CPU provider alone; otherwise it is the accelerator
      providers the runtime reports, in priority order, then the CPU provider. */
  function GetExecutionProviders(h: Helper, preferNpu: bool, query: ProviderQuery): (r: seq<string>)
    ensures 1 <= |r| <= 6
    ensures r[|r| - 1] == Cpu && Cpu !in r[..|r| - 1]
    ensures NoDuplicates(r)
    ensures h.cpuOnlyMode || query.Failure? ==> r == [Cpu]
    ensures !h.cpuOnlyMode && query.Success? ==>
              && IsSubsequence(r, Priority + [Cpu])
              && forall p :: p in r[..|r| - 1] <==> p in Priority && p in query.value
  {
    if h.cpuOnlyMode then [Cpu]
    else
      match query
      case Failure(_) => [Cpu]
      case Success(available) =>
        var kept := KeepAvailable(Priority, available);
        PriorityFacts();
        SubsequenceLength(kept, Priority);
        SubsequenceNoDuplicates(kept, Priority);
        SubsequenceAppend(kept, Priority, Cpu);
        assert (kept + [Cpu])[..|kept|] == kept;
        kept + [Cpu]
  }

  /** The priority list repeats no name and does not hold the CPU provider. */
  lemma PriorityFacts()
    ensures NoDuplicates(Priority) && Cpu !in Priority && |Priority| == 5
  {
  }

  lemma {:induction false} SubsequenceLength(xs: seq<string>, ys: seq<string>)
    requires IsSubsequence(xs, ys)
    ensures |xs| <= |ys|
    decreases |ys|
  {
    if |xs| > 0 {
      if xs[0] == ys[0] {
        SubsequenceLength(xs[1..], ys[1..]);
      } else {
        SubsequenceLength(xs, ys[1..]);
      }
    }
  }

  /** Every element of a subsequence is an element of the whole. */
  lemma {:induction false} SubsequenceMembers(xs: seq<string>, ys: seq<string>)
    requires IsSubsequence(xs, ys)
    ensures forall p :: p in xs ==> p in ys
    decreases |ys|
  {
    if |xs| > 0 {
      if xs[0] == ys[0] {
        SubsequenceMembers(xs[1..], ys[1..]);
        assert forall p :: p in xs ==> p == xs[0] || p in xs[1..];
      } else {
        SubsequenceMembers(xs, ys[1..]);
      }
    }
  }

  /** Deleting elements cannot create a duplicate. */
  lemma {:induction false} SubsequenceNoDuplicates(xs: seq<string>, ys: seq<string>)
    requires IsSubsequence(xs, ys) && NoDuplicates(ys)
    ensures NoDuplicates(xs)
    decreases |ys|
  {
    if |xs| > 0 {
      assert NoDuplicates(ys[1..]) by {
        forall i, j | 0 <= i < j < |ys[1..]| ensures ys[1..][i] != ys[1..][j] {
          assert ys[1..][i] == ys[i + 1] && ys[1..][j] == ys[j + 1];
        }
      }
      if xs[0] == ys[0] {
        SubsequenceNoDuplicates(xs[1..], ys[1..]);
        SubsequenceMembers(xs[1..], ys[1..]);
        assert xs[0] !in ys[1..];
        forall i, j | 0 <= i < j < |xs| ensures xs[i] != xs[j] {
          if i == 0 {
            assert xs[j] == xs[1..][j - 1];
          } else {
            assert xs[i] == xs[1..][i - 1] && xs[j] == xs[1..][j - 1];
          }
        }
      } else {
        SubsequenceNoDuplicates(xs, ys[1..]);
      }
    }
  }

  /** Appending the same element to both keeps the subsequence relation. */
  lemma {:induction false} SubsequenceAppend(xs: seq<string>, ys: seq<string>, z: string)
    requires IsSubsequence(xs, ys)
    ensures IsSubsequence(xs + [z], ys + [z])
    decreases |ys|
  {
    if |xs| == 0 {
      assert xs + [z] == [z];
      if |ys| > 0 {
        AppendOnlyTail(ys, z);
      } else {
        assert ys + [z] == [z];
        assert IsSubsequence([z][1..], [z][1..]);
      }
    } else {
      assert (xs + [z])[1..] == xs[1..] + [z];
      assert (ys + [z])[1..] == ys[1..] + [z];
      if xs[0] == ys[0] {
        SubsequenceAppend(xs[1..], ys[1..], z);
      } else {
        SubsequenceAppend(xs, ys[1..], z);
      }
    }
  }

  /** `[z]` is a subsequence of anything ending in `z`. */
  lemma {:induction false} AppendOnlyTail(ys: seq<string>, z: string)
    ensures IsSubsequence([z], ys + [z])
    decreases |ys|
  {
    if |ys| > 0 {
      assert (ys + [z])[1..] == ys[1..] + [z];
      AppendOnlyTail(ys[1..], z);
    } else {
      assert IsSubsequence([z][1..], [z][1..]);
    }
  }

  /** The `prefer_npu` argument has no effect on the selection. */
  lemma PreferNpuIgnored(h: Helper, query: ProviderQuery)
    ensures GetExecutionProviders(h, true, query) == GetExecutionProviders(h, false, query)
  {
  }

  // ----- Single-provider check (`check_provider_available`) -----

  /** `check_provider_available(name)`: whether the runtime reports the name;
      false whenever onnxruntime cannot be asked. */
  function CheckProviderAvailable(name: string, query: ProviderQuery): (r: bool)
    ensures r <==> query.Success? && name in query.value
  {
    match query
    case Success(available) => name in available
    case Failure(_) => false
  }

  /** Without the override, an accelerator provider is selected exactly when
      the single-provider check reports it available, and the CPU provider is
      selected whatever the check says. */
  lemma CheckAgreesWithSelection(p: string, preferNpu: bool, query: ProviderQuery)
    ensures p in Priority ==>
              (CheckProviderAvailable(p, query) <==> p in GetExecutionProviders(Helper(false), preferNpu, query))
    ensures Cpu in GetExecutionProviders(Helper(false), preferNpu, query)
  {
    var r := GetExecutionProviders(Helper(false), preferNpu, query);
    PriorityFacts();
    var init := r[..|r| - 1];
    assert r == init + [Cpu];
    if p in Priority {
      assert p != Cpu;
      assert p in r <==> p in init;
      match query
      case Failure(_) =>
        assert init == [];
      case Success(available) =>
        assert p in init <==> p in available;
    }
  }

  // ----- The provider report (`get_provider_info`) -----

  /** One entry of the report's `providers` list. */
  datatype ProviderRecord = ProviderRecord(name: string, available: bool, description: Option<string>)

  /** The dictionary `get_provider_info` returns. */
  datatype ProviderReport = ProviderReport(cpuOnlyMode: bool, providers: seq<ProviderRecord>, error: Option<string>)

  /** The `if/elif` chain naming the known providers. */
  function Describe(name: string): Option<string> {
    if name == VitisAI then Some("AMD Ryzen AI NPU")
    else if name == OpenVINO then Some("Intel OpenVINO (CPU/iGPU/NPU)")
    else if name == Cuda then Some("NVIDIA CUDA GPU")
    else if name == Rocm then Some("AMD ROCm GPU")
    else if name == Cpu then Some("CPU execution")
    else None
  }

  /** The chain agrees with the description table, so only the five named
      providers get a description, and DirectML is not among them. */
  lemma DescribeMatchesTable(name: string)
    ensures Describe(name) == Get(Descriptions, name)
    ensures Describe(DirectML).None?
  {
  }

  /** The loop building one record per reported provider. */
  function Records(names: seq<string>): (rs: seq<ProviderRecord>)
    ensures |rs| == |names|
    ensures forall k :: 0 <= k < |names| ==>
              rs[k].name == names[k] && rs[k].available && rs[k].description == Describe(names[k])
    decreases |names|
  {
    if |names| == 0 then []
    else [ProviderRecord(names[0], true, Describe(names[0]))] + Records(names[1..])
  }

  /** `get_provider_info()`: one record per reported provider, in the order
      reported, each marked available and described when it is one of the
      known providers; when onnxruntime cannot be asked, no records and the
      error text instead. The override flag is copied, not consulted. */
  function GetProviderInfo(h: Helper, query: ProviderQuery): (r: ProviderReport)
    ensures r.cpuOnlyMode == h.cpuOnlyMode
    ensures query.Success? ==>
              && r.error.None?
              && |r.providers| == |query.value|
              && forall k :: 0 <= k < |query.value| ==>
                   && r.providers[k].name == query.value[k]
                   && r.providers[k].available
                   && r.providers[k].description == Get(Descriptions, query.value[k])
    ensures query.Failure? ==> r.providers == [] && r.error.Some?
    ensures query == Failure(NotInstalled) ==> r.error == Some("onnxruntime not installed")
    ensures query.Failure? && query.error.QueryFailed? ==> r.error == Some(query.error.message)
  {
    match query
    case Success(available) =>
      var rs := Records(available);
      assert forall k :: 0 <= k < |available| ==> Describe(available[k]) == Get(Descriptions, available[k]) by {
        forall k | 0 <= k < |available| { DescribeMatchesTable(available[k]); }
      }
      ProviderReport(h.cpuOnlyMode, rs, None)
    case Failure(NotInstalled) => ProviderReport(h.cpuOnlyMode, [], Some("onnxruntime not installed"))
    case Failure(QueryFailed(message)) => ProviderReport(h.cpuOnlyMode, [], Some(message))
  }
}
