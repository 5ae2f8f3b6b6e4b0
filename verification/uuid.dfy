/** The identifier type of the store: `uuid.UUID`, which Go declares as `[16]byte`.
    Generation (`uuid.New`) and parsing (`uuid.Parse`) are not part of this model;
    a freshly generated identifier is passed in by the caller instead. */
module Uuids {
  import opened Bytes

  type Uuid = s: seq<byte> | |s| == 16 witness seq(16, i => 0)

  /** The all-zero UUID, which is the `ID` of Go's zero value `user{}`. */
  const Nil: Uuid := [0, 0, 0, 0, 0, 0, 0, 0, 0, 0, 0, 0, 0, 0, 0, 0]
}
