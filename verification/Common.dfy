/** Shared vocabulary: machine bytes, optional values and machine-word bounds. */
module Common {
  type byte = b: int | 0 <= b < 256
  type Bytes = seq<byte>

  datatype Option<+T> = None | Some(value: T)

  const U16: nat := 0x1_0000
  const U32: nat := 0x1_0000_0000
  const I64: nat := 0x8000_0000_0000_0000
  const U64: nat := 0x1_0000_0000_0000_0000

  lemma {:induction false} Assoc<T>(a: seq<T>, b: seq<T>, c: seq<T>)
    ensures a + (b + c) == a + b + c
  {
  }

  /** `s` stands in `data` at this offset. */
  predicate StandsAt(data: Bytes, offset: nat, s: Bytes) {
    offset + |s| <= |data| && data[offset..offset + |s|] == s
  }

  /** `memmem::find`: the first place at or after `from` where the needle stands. */
  function FindFrom(text: Bytes, needle: Bytes, from: nat): (r: Option<nat>)
    ensures r.Some? ==> from <= r.value && StandsAt(text, r.value, needle)
    ensures r.Some? ==> forall j | from <= j < r.value :: !StandsAt(text, j, needle)
    ensures r.None? ==> forall j | from <= j :: !StandsAt(text, j, needle)
    decreases |text| - from
  {
    if from + |needle| > |text| then None
    else if text[from..from + |needle|] == needle then Some(from)
    else FindFrom(text, needle, from + 1)
  }
}
