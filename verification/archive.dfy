/** `move_email_to_no_relevante`: the archive key is the object key with
    `emails/` replaced by `no_relevante/`, and the move is a copy to that key
    followed by a delete of the original. The bucket is a map from key to
    content; whether each storage call succeeds is an input, since the
    service behind it is not part of the model. */
module Archive {
  import opened Wrappers
  import PyStr

  const InboxPrefix: string := "emails/"
  const ArchivePrefix: string := "no_relevante/"

  /** `s3_object.replace("emails/", "no_relevante/")`. Since the replacement
      is longer than the pattern, the key changes exactly when it contains
      `emails/`. */
  function ArchiveKey(key: string): (r: string)
    ensures r == key <==> !PyStr.Contains(key, InboxPrefix)
  {
    PyStr.ReplaceUnchangedIff(key, InboxPrefix, ArchivePrefix);
    PyStr.ReplaceAll(key, InboxPrefix, ArchivePrefix)
  }

  /** The first `emails/` is replaced, what precedes it is kept, and the
      rest of the key is rewritten the same way. */
  lemma ArchiveKeyAtFirstOccurrence(key: string, i: int)
    requires PyStr.FirstOccurrenceAt(key, InboxPrefix, i)
    ensures ArchiveKey(key) == key[..i] + ArchivePrefix + ArchiveKey(key[i + |InboxPrefix|..])
  {
    PyStr.ReplaceAtFirstOccurrence(key, InboxPrefix, ArchivePrefix, i);
  }

  /** An object stored under the inbox prefix moves under the archive
      prefix with the rest of its key unchanged. */
  lemma ArchiveKeyOfInboxObject(name: string)
    requires !PyStr.Contains(name, InboxPrefix)
    ensures ArchiveKey(InboxPrefix + name) == ArchivePrefix + name
  {
    var key := InboxPrefix + name;
    assert key[0..|InboxPrefix|] == InboxPrefix;
    assert key[|InboxPrefix|..] == name;
    ArchiveKeyAtFirstOccurrence(key, 0);
  }

  /** `emails/x.eml` becomes `no_relevante/x.eml`. */
  lemma ArchiveKeyExample()
    ensures ArchiveKey("emails/x.eml") == "no_relevante/x.eml"
  {
    assert !PyStr.Contains("x.eml", InboxPrefix);
    assert InboxPrefix + "x.eml" == "emails/x.eml";
    ArchiveKeyOfInboxObject("x.eml");
  }

  /** Occurrences of `emails/` in a suffix of `out` are the occurrences in
      `out` at or after where the suffix starts. */
  lemma OccursInSuffix(out: string, d: int, i: int)
    requires 0 <= d <= i && d <= |out|
    ensures PyStr.OccursAt(out, InboxPrefix, i) <==> PyStr.OccursAt(out[d..], InboxPrefix, i - d)
  {
    if i + |InboxPrefix| <= |out| {
      assert out[d..][i - d..i - d + |InboxPrefix|] == out[i..i + |InboxPrefix|];
    }
  }

  /** No occurrence of `emails/` starts inside `no_relevante/`: there is no
      `m` in it, and one straddling its end would need a `/` inside `emails`. */
  lemma NoInboxInArchivePrefix(tail: string, i: int)
    requires 0 <= i < |ArchivePrefix|
    ensures !PyStr.OccursAt(ArchivePrefix + tail, InboxPrefix, i)
  {
    var out := ArchivePrefix + tail;
    if i + |InboxPrefix| <= |out| {
      var window := out[i..i + |InboxPrefix|];
      if i + |InboxPrefix| <= |ArchivePrefix| {
        assert window[1] == ArchivePrefix[i + 1];
        assert window[1] != InboxPrefix[1];
      } else {
        assert window[|ArchivePrefix| - 1 - i] == out[|ArchivePrefix| - 1];
        assert window[|ArchivePrefix| - 1 - i] != InboxPrefix[|ArchivePrefix| - 1 - i];
      }
    }
  }

  /** Every `emails/` is gone from the archive key: the replacement never
      creates a new occurrence. */
  lemma {:induction false} ArchiveKeyHasNoInboxPrefix(key: string)
    ensures !PyStr.Contains(ArchiveKey(key), InboxPrefix)
    decreases |key|
  {
    var out := ArchiveKey(key);
    if |key| >= |InboxPrefix| {
      if key[..|InboxPrefix|] == InboxPrefix {
        var rest := key[|InboxPrefix|..];
        ArchiveKeyHasNoInboxPrefix(rest);
        assert out == ArchivePrefix + ArchiveKey(rest);
        assert out[|ArchivePrefix|..] == ArchiveKey(rest);
        forall i | 0 <= i
          ensures !PyStr.OccursAt(out, InboxPrefix, i)
        {
          if i < |ArchivePrefix| {
            NoInboxInArchivePrefix(ArchiveKey(rest), i);
          } else {
            OccursInSuffix(out, |ArchivePrefix|, i);
          }
        }
      } else {
        var rest := key[1..];
        ArchiveKeyHasNoInboxPrefix(rest);
        var tail := ArchiveKey(rest);
        assert out == [key[0]] + tail;
        assert out[1..] == tail;
        forall i | 0 <= i
          ensures !PyStr.OccursAt(out, InboxPrefix, i)
        {
          if i == 0 {
            NoInboxAtHead(key, out, tail);
          } else {
            OccursInSuffix(out, 1, i);
          }
        }
      }
    }
  }

  /** The step of the scan that keeps `key[0]`: since `emails/` does not
      start the key, it does not start the result either. */
  lemma NoInboxAtHead(key: string, out: string, tail: string)
    requires |key| >= |InboxPrefix| && key[..|InboxPrefix|] != InboxPrefix
    requires tail == ArchiveKey(key[1..]) && out == [key[0]] + tail
    ensures !PyStr.OccursAt(out, InboxPrefix, 0)
  {
    var n := |InboxPrefix| - 1;
    if |out| >= |InboxPrefix| {
      if exists k :: 0 <= k < n && tail[k] == ArchivePrefix[0] {
        var k :| 0 <= k < n && tail[k] == ArchivePrefix[0];
        assert out[..|InboxPrefix|][k + 1] == tail[k];
        assert out[..|InboxPrefix|][k + 1] != InboxPrefix[k + 1];
      } else {
        PyStr.ReplaceKeepsPrefix(key[1..], InboxPrefix, ArchivePrefix, n);
        assert key[..|InboxPrefix|] == [key[0]] + key[1..][..n];
        assert out[..|InboxPrefix|] == [key[0]] + tail[..n];
      }
    }
  }

  /** Archiving an archive key changes nothing. */
  lemma ArchiveKeyIdempotent(key: string)
    ensures ArchiveKey(ArchiveKey(key)) == ArchiveKey(key)
  {
    ArchiveKeyHasNoInboxPrefix(key);
  }

  newtype byte = b: int | 0 <= b < 256

  /** One bucket: object key to object content */
  type Store = map<string, seq<byte>>

  /** The storage calls the move issues, in order */
  datatype Call = CopyObject(source: string, dest: string) | DeleteObject(key: string)

  /** What the move logs: success, or which call raised */
  datatype MoveStatus = Moved | CopyFailed | DeleteFailed

  datatype MoveResult = MoveResult(store: Store, calls: seq<Call>, status: MoveStatus)

  /** `s3.copy_object`: fails when the service reports a failure or the
      source object does not exist; otherwise `dest` gets the source's content. */
  function Copy(store: Store, source: string, dest: string, succeeds: bool): (r: Option<Store>)
    ensures r.Some? <==> succeeds && source in store
    ensures r.Some? ==> r.value.Keys == store.Keys + {dest}
    ensures r.Some? ==> r.value[dest] == store[source]
    ensures r.Some? ==> forall k :: k in store && k != dest ==> r.value[k] == store[k]
  {
    if succeeds && source in store then Some(store[dest := store[source]]) else None
  }

  /** `s3.delete_object` */
  function Delete(store: Store, key: string, succeeds: bool): (r: Option<Store>)
    ensures r.Some? <==> succeeds
    ensures r.Some? ==> r.value.Keys == store.Keys - {key}
    ensures r.Some? ==> forall k :: k in r.value ==> r.value[k] == store[k]
  {
    if succeeds then Some(store - {key}) else None
  }

  /** Content of `k` is the same in both stores (or absent from both). */
  ghost predicate SameAt(a: Store, b: Store, k: string) {
    (k in a <==> k in b) && (k in a ==> a[k] == b[k])
  }

  /** `move_email_to_no_relevante(bucket, key)`: copy, then delete only if
      the copy succeeded; every failure is caught and logged, never raised. */
  function MoveEmailToNoRelevante(store: Store, key: string, copySucceeds: bool, deleteSucceeds: bool): (r: MoveResult)
    ensures 1 <= |r.calls| <= 2 && r.calls[0] == CopyObject(key, ArchiveKey(key))
    ensures |r.calls| == 2 <==> r.status != CopyFailed
    ensures |r.calls| == 2 ==> r.calls[1] == DeleteObject(key)
    ensures r.status == CopyFailed <==> !(copySucceeds && key in store)
    ensures r.status == Moved <==> copySucceeds && key in store && deleteSucceeds
    ensures r.status == CopyFailed ==> r.store == store
    ensures r.status == DeleteFailed ==>
      && key in r.store && r.store[key] == store[key]
      && ArchiveKey(key) in r.store && r.store[ArchiveKey(key)] == store[key]
    ensures r.status == Moved && ArchiveKey(key) != key ==>
      && key !in r.store
      && ArchiveKey(key) in r.store && r.store[ArchiveKey(key)] == store[key]
    ensures forall k :: k != key && k != ArchiveKey(key) ==> SameAt(r.store, store, k)
  {
    var dest := ArchiveKey(key);
    var copyCall := CopyObject(key, dest);
    match Copy(store, key, dest, copySucceeds)
    case None =>
      MoveResult(store, [copyCall], CopyFailed)
    case Some(copied) =>
      match Delete(copied, key, deleteSucceeds)
      case None =>
        MoveResult(copied, [copyCall, DeleteObject(key)], DeleteFailed)
      case Some(deleted) =>
        MoveResult(deleted, [copyCall, DeleteObject(key)], Moved)
  }

  /** The move never loses an email whose key contains `emails/`: whatever
      the calls' outcomes, its content is still under the original key or
      under the archive key. */
  lemma MoveKeepsContent(store: Store, key: string, copySucceeds: bool, deleteSucceeds: bool)
    requires key in store
    requires PyStr.Contains(key, InboxPrefix)
    ensures var r := MoveEmailToNoRelevante(store, key, copySucceeds, deleteSucceeds);
      || (key in r.store && r.store[key] == store[key])
      || (ArchiveKey(key) in r.store && r.store[ArchiveKey(key)] == store[key])
  {
  }

  /** A key without `emails/` is its own archive key: if the service accepts
      the copy onto itself and the delete, the email is gone from the bucket. */
  lemma MoveToSameKeyDeletes(store: Store, key: string)
    requires key in store
    requires !PyStr.Contains(key, InboxPrefix)
    ensures MoveEmailToNoRelevante(store, key, true, true).status == Moved
    ensures key !in MoveEmailToNoRelevante(store, key, true, true).store
  {
  }
}
