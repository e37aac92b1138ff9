/**
 Keeps large predicates folded in proofs that only pass them along.

 A sealed predicate is written `forall k :: Opened(S, k) ==> body`. It means
 `body`, since Opened is always true, but the verifier looks inside only where
 the proof says `assert Opened(S, 0)`.
 */
module Seals {
  datatype Seal = VolumeSeal | LayoutSeal | RecordSeal | FillSeal | OthersSeal | StreamSeal | TrimSeal
    | PoolSeal | DeviceSeal | MarkerSeal | EntrySeal | NameSeal | CountSeal | RootSeal | NamesSeal | ChainSeal
    | OwnerSeal | ListSeal | HeadsSeal | GrowSeal | BookSeal | FreshSeal | ShapeSeal | PageSeal | ShowSeal
    | TableSeal | FilesSeal | SetSeal | StepSeal | AcceptSeal | LongSeal | ScanSeal | FramesSeal | CoverSeal

  predicate Opened(seal: Seal, k: int) { true }
}
