/**
 * The key under which the application pairs a card with a media file: the card's UID bytes
 * zero-padded or truncated to the 16 bytes of a UUID (`slice_to_uuid`), and the pairing
 * table written and read through that key.
 */
module CardKey {
  import opened Bits
  import opened Picc

  /** The 16 bytes of a `Uuid`. */
  type Uuid = s: seq<byte> | |s| == 16 witness [0, 0, 0, 0, 0, 0, 0, 0, 0, 0, 0, 0, 0, 0, 0, 0]

  datatype Option<T> = None | Some(value: T)

  /** `data.iter().cloned().chain(repeat(0)).take(n)`, collected: the items of `data`, then
      zeros, `n` items in all. */
  function PadTake(data: seq<byte>, n: nat): (r: seq<byte>)
    ensures |r| == n
  {
    if n == 0 then []
    else if |data| == 0 then [0] + PadTake([], n - 1)
    else [data[0]] + PadTake(data[1..], n - 1)
  }

  /** `Vec<u8>::try_into::<[u8; 16]>`: succeeds exactly on 16 bytes. */
  function TryIntoUuid(v: seq<byte>): (r: Option<Uuid>)
    ensures r.Some? <==> |v| == 16
    ensures r.Some? ==> r.value == v
  {
    if |v| == 16 then var a: Uuid := v; Some(a) else None
  }

  /** The all-zero key `slice_to_uuid` falls back to when the conversion fails. */
  const FALLBACK_KEY: Uuid := [0, 0, 0, 0, 0, 0, 0, 0, 0, 0, 0, 0, 0, 0, 0, 0]

  /** `slice_to_uuid`. */
  function SliceToUuid(data: seq<byte>): (key: Uuid)
  {
    match TryIntoUuid(PadTake(data, 16))
    case Some(a) => a
    case None => FALLBACK_KEY
  }

  /** Item `i` of the padded sequence is `data[i]` as long as `data` lasts, zero after. */
  lemma {:induction false} PadTakeItems(data: seq<byte>, n: nat)
    ensures forall i :: 0 <= i < n ==> PadTake(data, n)[i] == if i < |data| then data[i] else 0
  {
    if n > 0 {
      var rest := if |data| == 0 then [] else data[1..];
      PadTakeItems(rest, n - 1);
      forall i | 0 <= i < n ensures PadTake(data, n)[i] == if i < |data| then data[i] else 0 {
        if i > 0 {
          assert PadTake(data, n)[i] == PadTake(rest, n - 1)[i - 1];
        }
      }
    }
  }

  /** `take(16)` of the endless chain always yields 16 items, so the fallback is never used. */
  lemma FallbackUnreachable(data: seq<byte>)
    ensures TryIntoUuid(PadTake(data, 16)).Some?
    ensures SliceToUuid(data) == PadTake(data, 16)
  {
  }

  /** The key is the first 16 bytes of `data`, padded with zeros when `data` is shorter. */
  lemma SliceToUuidBytes(data: seq<byte>)
    ensures forall i :: 0 <= i < 16 ==> SliceToUuid(data)[i] == if i < |data| then data[i] else 0
  {
    FallbackUnreachable(data);
    PadTakeItems(data, 16);
  }

  lemma SliceToUuidPrefix(data: seq<byte>)
    ensures |data| <= 16 ==> SliceToUuid(data)[..|data|] == data
    ensures |data| > 16 ==> SliceToUuid(data) == data[..16]
    ensures forall i :: |data| <= i < 16 ==> SliceToUuid(data)[i] == 0
  {
    SliceToUuidBytes(data);
  }

  /** Bytes after the sixteenth do not take part in the key. */
  lemma SliceToUuidTruncates(data: seq<byte>)
    requires |data| >= 16
    ensures SliceToUuid(data) == SliceToUuid(data[..16])
  {
    SliceToUuidBytes(data);
    SliceToUuidBytes(data[..16]);
  }

  /** Appending zeros does not change the key. */
  lemma TrailingZerosShareKey(data: seq<byte>, m: nat)
    ensures SliceToUuid(data + Zeros(m)) == SliceToUuid(data)
  {
    SliceToUuidBytes(data);
    SliceToUuidBytes(data + Zeros(m));
    forall i | 0 <= i < 16 ensures SliceToUuid(data + Zeros(m))[i] == SliceToUuid(data)[i] {
      if |data| <= i < |data| + m {
        assert (data + Zeros(m))[i] == Zeros(m)[i - |data|];
      }
    }
  }

  /** Inputs of the same length up to 16 bytes get the same key only if they are equal. */
  lemma SliceToUuidInjective(a: seq<byte>, b: seq<byte>)
    requires |a| == |b| <= 16
    ensures SliceToUuid(a) == SliceToUuid(b) <==> a == b
  {
    SliceToUuidPrefix(a);
    SliceToUuidPrefix(b);
  }

  // ---------------------------------------------------------------- pairing table

  /** The key of a card: `slice_to_uuid(uid.as_bytes())`. */
  function KeyOf(uid: Uid): (key: Uuid)
    ensures key[..|AsBytes(uid)|] == AsBytes(uid)
    ensures forall i :: |AsBytes(uid)| <= i < 16 ==> key[i] == 0
  {
    SliceToUuidPrefix(AsBytes(uid));
    SliceToUuid(AsBytes(uid))
  }

  /** Cards with UIDs of the same size share a key exactly when their UID bytes are equal. */
  lemma KeyOfSameSize(u: Uid, v: Uid)
    requires |AsBytes(u)| == |AsBytes(v)|
    ensures KeyOf(u) == KeyOf(v) <==> AsBytes(u) == AsBytes(v)
  {
    SliceToUuidInjective(AsBytes(u), AsBytes(v));
  }

  /** A 4-byte UID and a 7-byte UID made of the same four bytes and three zeros share a key. */
  lemma ZeroExtendedUidsShareKey(u: Uid, v: Uid)
    requires u.Single? && v.Double? && AsBytes(v) == AsBytes(u) + Zeros(3)
    ensures KeyOf(u) == KeyOf(v)
  {
    TrailingZerosShareKey(AsBytes(u), 3);
  }

  /** The media paths paired with card keys. */
  type PairingTable = map<Uuid, string>

  /** Pair the card `uid` with `path` (the database insert of the pairing command). */
  function PairCard(table: PairingTable, uid: Uid, path: string): (t: PairingTable)
    ensures KeyOf(uid) in t && t[KeyOf(uid)] == path
    ensures forall k :: k != KeyOf(uid) ==> (k in t <==> k in table)
    ensures forall k :: k != KeyOf(uid) && k in t ==> t[k] == table[k]
  {
    table[KeyOf(uid) := path]
  }

  /** Look up the path paired with the card `uid` (the database get when no command waits). */
  function LookupCard(table: PairingTable, uid: Uid): (r: Option<string>)
    ensures r.Some? <==> KeyOf(uid) in table
  {
    if KeyOf(uid) in table then Some(table[KeyOf(uid)]) else None
  }

  /** A card finds what was paired with it, and with any card of the same key; the lookup of
      any other card is unaffected by the pairing. */
  lemma LookupAfterPair(table: PairingTable, u: Uid, path: string, v: Uid)
    ensures KeyOf(v) == KeyOf(u) ==> LookupCard(PairCard(table, u, path), v) == Some(path)
    ensures KeyOf(v) != KeyOf(u) ==> LookupCard(PairCard(table, u, path), v) == LookupCard(table, v)
  {
  }
}
