/** Pool sizes (packages/parallel/src/limits.ts and the cap resolution of executor.ts). */
module Limits {
  import opened Common

  /** A JavaScript number; rounding is not modelled. */
  datatype Number = NaN | PosInf | NegInf | Finite(r: real)

  datatype Cap = Auto | Fixed(n: Number)

  function Max(a: int, b: int): int {
    if a >= b then a else b
  }

  function CpuConcurrency(cpus: nat): int {
    Max(1, cpus / 2)
  }

  /** Requests per minute published for the sonnet model; none for `enterprise` or an unknown tier. */
  function SonnetRpm(tier: Option<string>): Option<int> {
    match tier
    case None => Some(1000)
    case Some(t) =>
      if t == "1" then Some(1000)
      else if t == "2" then Some(2000)
      else if t == "3" then Some(4000)
      else if t == "4" then Some(8000)
      else None
  }

  /** Steady in-flight count at four seconds a request. */
  function RpmToConcurrency(rpm: Option<int>): Option<int> {
    match rpm
    case None => None
    case Some(n) => Some(Max(1, (n as real / 60.0 * 4000.0 / 1000.0).Floor))
  }

  function FixedCap(n: Number): (r: Option<int>)
    ensures r.Some? <==> n.Finite? && n.r >= 1.0
    ensures r.Some? ==> r.value >= 1 && r.value as real <= n.r < r.value as real + 1.0
  {
    if n.Finite? && n.r >= 1.0 then Some(n.r.Floor) else None
  }

  /** The whole part of a usable number, and at least one whatever the option holds. */
  function GlobalCap(concurrency: Option<Cap>, cpus: nat): (r: int)
    ensures r >= 1
    ensures concurrency.Some? && concurrency.value.Fixed? && concurrency.value.n.Finite? ==>
              var n := concurrency.value.n.r;
              if n < 1.0 then r == 1 else r as real <= n < r as real + 1.0
    ensures concurrency.Some? && concurrency.value.Fixed? && !concurrency.value.n.Finite? ==> r == 1
    ensures concurrency.None? || concurrency.value.Auto? ==> r == 1 || 2 * r == cpus || 2 * r + 1 == cpus
    ensures concurrency.None? || concurrency.value.Auto? ==> (r == 1 <==> cpus < 4)
  {
    match concurrency
    case None => CpuConcurrency(cpus)
    case Some(Auto) => CpuConcurrency(cpus)
    case Some(Fixed(n)) => if FixedCap(n).None? then 1 else FixedCap(n).value
  }

  /** The cap of one tag, if it gets any. A model call is taken to last four seconds, so
      the rate per minute allows a fifteenth of it in flight at once. An unusable number leaves the tag uncapped,
      where the same number would make the global cap one. */
  function TagCap(tag: string, cap: Cap, cpus: nat, tier: Option<string>): (r: Option<int>)
    ensures r.Some? ==> r.value >= 1
    ensures r.None? <==> match cap
                         case Auto => tag == "llm-bound" && SonnetRpm(tier).None?
                         case Fixed(n) => !(n.Finite? && n.r >= 1.0)
    ensures r.Some? ==> match cap
                        case Fixed(n) => n.Finite? && r.value as real <= n.r < r.value as real + 1.0
                        case Auto =>
                          if tag == "llm-bound" then
                            SonnetRpm(tier).Some? && 15 * r.value <= SonnetRpm(tier).value < 15 * (r.value + 1)
                          else r.value == GlobalCap(None, cpus)
  {
    match cap
    case Auto => if tag == "llm-bound" then RpmToConcurrency(SonnetRpm(tier)) else Some(CpuConcurrency(cpus))
    case Fixed(n) => FixedCap(n)
  }

  /** The published rates, at four seconds a call: 1000 to 8000 requests a minute. */
  lemma ModelCaps(cpus: nat)
    ensures TagCap("llm-bound", Auto, cpus, None) == Some(66) == TagCap("llm-bound", Auto, cpus, Some("1"))
    ensures TagCap("llm-bound", Auto, cpus, Some("2")) == Some(133)
    ensures TagCap("llm-bound", Auto, cpus, Some("3")) == Some(266)
    ensures TagCap("llm-bound", Auto, cpus, Some("4")) == Some(533)
    ensures forall t :: t !in ["1", "2", "3", "4"] ==> TagCap("llm-bound", Auto, cpus, Some(t)) == None
  {
    assert forall t :: t !in ["1", "2", "3", "4"] ==> t != "1" && t != "2" && t != "3" && t != "4";
  }

  /** The resolved per-tag caps; the entries of the option object have distinct tags. */
  method TagCaps(entries: seq<(string, Cap)>, cpus: nat, tier: Option<string>) returns (caps: map<string, int>)
    requires forall i, j :: 0 <= i < j < |entries| ==> entries[i].0 != entries[j].0
    ensures forall t :: t in caps ==> caps[t] >= 1
    ensures forall t :: t in caps ==> exists i :: 0 <= i < |entries| && entries[i].0 == t
    ensures forall i :: 0 <= i < |entries| ==>
              match TagCap(entries[i].0, entries[i].1, cpus, tier)
              case None => entries[i].0 !in caps
              case Some(n) => entries[i].0 in caps && caps[entries[i].0] == n
  {
    caps := map[];
    for k := 0 to |entries|
      invariant forall t :: t in caps ==> caps[t] >= 1
      invariant forall t :: t in caps ==> exists i :: 0 <= i < k && entries[i].0 == t
      invariant forall i :: 0 <= i < k ==>
                  match TagCap(entries[i].0, entries[i].1, cpus, tier)
                  case None => entries[i].0 !in caps
                  case Some(n) => entries[i].0 in caps && caps[entries[i].0] == n
    {
      var (tag, cap) := entries[k];
      var resolved := TagCap(tag, cap, cpus, tier);
      if resolved.Some? {
        caps := caps[tag := resolved.value];
      }
    }
  }
}
