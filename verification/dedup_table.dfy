/**
 The hashes file and the pointer files as bytes. Record `i` of the hashes file is 45 bytes long: the
 3-digit id i + 1, a 2-digit counter of the pointers to the block, and the 40-digit hash of its content.
 A pointer file is the 3-digit ids of a file's blocks one after another.
 */
module DedupTable {
  import opened DedupText

  const ID_LENGTH: nat := 3
  const POINTERS_COUNTER_LENGTH: nat := 2
  const HASH_SIZE: nat := 40
  const LINE_LENGTH: nat := 45

  datatype Record = Record(counter: nat, hash: string)

  ghost predicate IsHash(h: string) {
    |h| == HASH_SIZE && NoNul(h)
  }

  /** Ids and counters that fit their fields, hashes of the right length. */
  ghost predicate TableOk(t: seq<Record>) {
    && |t| <= 999
    && forall i | 0 <= i < |t| :: t[i].counter <= 99 && IsHash(t[i].hash)
  }

  /** One line of the hashes file. */
  function Line(id: nat, r: Record): string {
    Padded(id, ID_LENGTH) + Padded(r.counter, POINTERS_COUNTER_LENGTH) + r.hash
  }

  function EncodeTable(t: seq<Record>): string {
    if t == [] then "" else EncodeTable(t[..|t| - 1]) + Line(|t|, t[|t| - 1])
  }

  /** The fields of a line that fits are where the code looks for them. */
  lemma LineFields(id: nat, r: Record)
    requires id <= 999 && r.counter <= 99 && IsHash(r.hash)
    ensures var l := Line(id, r);
            && |l| == LINE_LENGTH
            && l[..3] == Padded(id, 3) && l[3..5] == Padded(r.counter, 2) && l[5..] == r.hash
  {
    FieldWidths(id, r.counter);
  }

  /** A counter of three digits would make the line one byte longer than the record it replaces. */
  lemma LineOverflows(id: nat, r: Record)
    requires IsHash(r.hash)
    ensures |Line(id, r)| == LINE_LENGTH <==> id <= 999 && r.counter <= 99
  {
    FieldWidths(id, r.counter);
    PaddedWidth(id, 3);
    PaddedWidth(r.counter, 2);
  }

  lemma TableOkPrefix(t: seq<Record>, n: nat)
    requires TableOk(t) && n <= |t|
    ensures TableOk(t[..n])
  {}

  lemma {:induction false} EncodeLength(t: seq<Record>)
    requires TableOk(t)
    ensures |EncodeTable(t)| == LINE_LENGTH * |t|
  {
    if t != [] {
      TableOkPrefix(t, |t| - 1);
      EncodeLength(t[..|t| - 1]);
      LineFields(|t|, t[|t| - 1]);
    }
  }

  /** Record `k` occupies the bytes from 45 * k on. */
  lemma {:induction false} EncodeAt(t: seq<Record>, k: nat)
    requires TableOk(t) && k < |t|
    ensures |EncodeTable(t)| == LINE_LENGTH * |t|
    ensures EncodeTable(t)[LINE_LENGTH * k..LINE_LENGTH * k + LINE_LENGTH] == Line(k + 1, t[k])
  {
    var n := |t| - 1;
    TableOkPrefix(t, n);
    EncodeLength(t);
    EncodeLength(t[..n]);
    if k < n {
      EncodeAt(t[..n], k);
      var a, b := LINE_LENGTH * k, LINE_LENGTH * k + LINE_LENGTH;
      assert EncodeTable(t)[a..b] == EncodeTable(t[..n])[a..b];
    }
  }

  lemma EncodeAppend(t: seq<Record>, r: Record)
    requires TableOk(t)
    ensures EncodeTable(t + [r]) == Overwrite(EncodeTable(t), |EncodeTable(t)|, Line(|t| + 1, r))
  {
    assert (t + [r])[..|t|] == t;
  }

  /** Rewriting one line in place is updating one record. */
  lemma {:induction false} EncodeUpdate(t: seq<Record>, k: nat, r: Record)
    requires TableOk(t) && k < |t| && r.counter <= 99 && IsHash(r.hash)
    ensures EncodeTable(t[k := r]) == Overwrite(EncodeTable(t), LINE_LENGTH * k, Line(k + 1, r))
    ensures TableOk(t[k := r])
  {
    hide Line, Overwrite;
    var n := |t| - 1;
    var u := t[k := r];
    TableOkPrefix(t, n);
    EncodeLength(t);
    EncodeLength(t[..n]);
    LineFields(k + 1, r);
    LineFields(|t|, t[n]);
    if k == n {
      assert u[..n] == t[..n];
      OverwriteLast(EncodeTable(t[..n]), Line(|t|, t[n]), Line(|t|, r));
    } else {
      EncodeUpdate(t[..n], k, r);
      assert u[..n] == t[..n][k := r];
      OverwriteInPrefix(EncodeTable(t[..n]), Line(|t|, t[n]), LINE_LENGTH * k, Line(k + 1, r));
    }
  }

  lemma OverwriteInPrefix(a: string, b: string, pos: nat, s: string)
    requires pos + |s| <= |a|
    ensures Overwrite(a + b, pos, s) == Overwrite(a, pos, s) + b
  {}

  lemma OverwriteLast(a: string, b: string, s: string)
    requires |s| == |b|
    ensures Overwrite(a + b, |a|, s) == a + s
  {}

  // -------------------------------------------------------------- decoding

  function DecodeTable(data: string): seq<Record> {
    if |data| < LINE_LENGTH then []
    else DecodeTable(data[..|data| - LINE_LENGTH]) + [DecodeLine(data[|data| - LINE_LENGTH..])]
  }

  function DecodeLine(l: string): Record
    requires |l| == LINE_LENGTH
  {
    Record(Atoi(l[3..5]), l[5..])
  }

  /** The bytes determine the table, and the id in every line is its position plus one. */
  lemma {:induction false} DecodeEncode(t: seq<Record>)
    requires TableOk(t)
    ensures DecodeTable(EncodeTable(t)) == t
  {
    if t != [] {
      var n := |t| - 1;
      var data, l := EncodeTable(t), Line(|t|, t[n]);
      TableOkPrefix(t, n);
      DecodeEncode(t[..n]);
      LineFields(|t|, t[n]);
      FieldWidths(|t|, t[n].counter);
      assert data[..|data| - LINE_LENGTH] == EncodeTable(t[..n]) && data[|data| - LINE_LENGTH..] == l;
    }
  }

  // ------------------------------------------------------------- pointer files

  function EncodeIds(ids: seq<nat>): string {
    if ids == [] then "" else EncodeIds(ids[..|ids| - 1]) + Padded(ids[|ids| - 1], ID_LENGTH)
  }

  ghost predicate IdsOk(ids: seq<nat>) {
    forall i | 0 <= i < |ids| :: ids[i] <= 999
  }

  lemma {:induction false} IdsLength(ids: seq<nat>)
    requires IdsOk(ids)
    ensures |EncodeIds(ids)| == ID_LENGTH * |ids|
  {
    if ids != [] {
      IdsLength(ids[..|ids| - 1]);
      FieldWidths(ids[|ids| - 1], 0);
    }
  }

  lemma {:induction false} IdsAt(ids: seq<nat>, k: nat)
    requires IdsOk(ids) && k < |ids|
    ensures |EncodeIds(ids)| == ID_LENGTH * |ids|
    ensures EncodeIds(ids)[ID_LENGTH * k..ID_LENGTH * k + ID_LENGTH] == Padded(ids[k], ID_LENGTH)
  {
    var n := |ids| - 1;
    IdsLength(ids);
    IdsLength(ids[..n]);
    FieldWidths(ids[n], 0);
    if k < n {
      IdsAt(ids[..n], k);
      var a, b := ID_LENGTH * k, ID_LENGTH * k + ID_LENGTH;
      assert EncodeIds(ids)[a..b] == EncodeIds(ids[..n])[a..b];
    }
  }

  /** Pointing slot `k` at a block: an update, or an append at the end. */
  function SetSlot(ids: seq<nat>, k: nat, id: nat): seq<nat>
    requires k <= |ids|
  {
    if k < |ids| then ids[k := id] else ids + [id]
  }

  /** Writing three digits at offset 3 * k of the pointer file sets slot `k` and nothing else. */
  lemma {:induction false} IdsSet(ids: seq<nat>, k: nat, id: nat)
    requires IdsOk(ids) && k <= |ids| && id <= 999
    ensures EncodeIds(SetSlot(ids, k, id)) == Overwrite(EncodeIds(ids), ID_LENGTH * k, Padded(id, ID_LENGTH))
  {
    IdsLength(ids);
    FieldWidths(id, 0);
    if k == |ids| {
      assert (ids + [id])[..k] == ids;
    } else {
      var n := |ids| - 1;
      IdsLength(ids[..n]);
      FieldWidths(ids[n], 0);
      if k == n {
        assert ids[k := id][..n] == ids[..n];
      } else {
        IdsSet(ids[..n], k, id);
        assert ids[k := id][..n] == ids[..n][k := id];
        OverwriteInPrefix(EncodeIds(ids[..n]), Padded(ids[n], ID_LENGTH), ID_LENGTH * k, Padded(id, ID_LENGTH));
      }
    }
  }
}
