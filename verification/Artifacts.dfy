/** The provider-neutral records that discovery, evaluation and planning pass around. */
module Artifacts {
  datatype Option<+T> = None | Some(value: T)

  datatype Result<+T, +E> = Ok(value: T) | Err(error: E)

  /** Instants and durations are nanoseconds; instants count from 1 January of year 0, UTC. */
  const NS_PER_DAY := 86_400_000_000_000

  /** `time.Time{}`, 1 January of year 1: the value `IsZero` recognises. */
  const ZERO_TIME := 366 * NS_PER_DAY

  const MAX_DURATION := 0x7FFF_FFFF_FFFF_FFFF
  const MIN_DURATION := -0x8000_0000_0000_0000

  /** `t.Sub(u)`, which saturates at the ends of the 64-bit duration range. */
  function Sub(t: int, u: int): int {
    if t - u > MAX_DURATION then MAX_DURATION
    else if t - u < MIN_DURATION then MIN_DURATION
    else t - u
  }

  function Distance(a: int, b: int): nat { if a < b then b - a else a - b }

  /** Of all 64-bit durations none is nearer to the exact difference. */
  lemma SubIsNearest(t: int, u: int, d: int)
    requires -0x8000_0000_0000_0000 <= d < 0x8000_0000_0000_0000
    ensures -0x8000_0000_0000_0000 <= Sub(t, u) < 0x8000_0000_0000_0000
    ensures Distance(Sub(t, u), t - u) <= Distance(d, t - u)
  {
  }

  /** A calendar version parsed from a tag; an empty `app` means none. */
  datatype Version = Version(tag: string, date: int, sequence: nat, app: string)

  datatype Artifact = Artifact(
    registry: string,
    repository: string,
    id: string,
    digest: string,
    tags: seq<string>,
    createdAt: int,
    updatedAt: int,
    referrers: seq<string>,
    versions: seq<Version>)

  function Key(a: Artifact): string {
    a.registry + "\0" + a.repository + "\0" + a.id
  }

  function Keys(arts: seq<Artifact>): set<string> {
    set a | a in arts :: Key(a)
  }
}
