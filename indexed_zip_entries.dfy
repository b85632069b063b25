/** IndexedZipEntries of TrimZip.CUI/IndexedZipEntries.cs: the entries of an open
    archive indexed by full name, and the open reader they came from. Once disposed,
    the index refuses every query; disposing again does nothing. */
module ZipEntryIndex {

  import opened Wrappers

  /** An accessor's answer, or the ObjectDisposedException it throws. */
  datatype Result<T> = Success(value: T) | ObjectDisposed

  /** The archive reader the index keeps open. Its implementation lives in a library
      that is not part of this model; only its disposals are counted. */
  class ZipArchiveReader {
    var disposals: nat

    constructor ()
      ensures disposals == 0
    {
      disposals := 0;
    }

    method Dispose()
      modifies this
      ensures disposals == old(disposals) + 1
    {
      disposals := disposals + 1;
    }
  }

  /** Some full name occurs twice in the entry list. */
  predicate HasDuplicateName<E>(list: seq<(string, E)>)
  {
    exists i, j :: 0 <= i < j < |list| && list[i].0 == list[j].0
  }

  /** The dictionary of an entry list, name to entry, built front to back. */
  function EntryMap<E>(list: seq<(string, E)>): map<string, E>
    decreases |list|
  {
    if |list| == 0 then map[] else EntryMap(list[..|list| - 1])[list[|list| - 1].0 := list[|list| - 1].1]
  }

  /** The dictionary's keys are exactly the names in the list. */
  lemma {:induction false} EntryMapKeys<E>(list: seq<(string, E)>, name: string)
    ensures name in EntryMap(list) <==> exists i :: 0 <= i < |list| && list[i].0 == name
    decreases |list|
  {
    if |list| > 0 {
      var init := list[..|list| - 1];
      EntryMapKeys(init, name);
      if name in EntryMap(init) {
        var i :| 0 <= i < |init| && init[i].0 == name;
        assert list[i].0 == name;
      }
      if exists i :: 0 <= i < |list| && list[i].0 == name {
        var i :| 0 <= i < |list| && list[i].0 == name;
        if i < |init| {
          assert init[i].0 == name;
        }
      }
    }
  }

  /** Without duplicates, every entry is found under its own name, and the dictionary
      holds as many keys as the list holds entries. */
  lemma {:induction false} EntryMapOfDistinct<E>(list: seq<(string, E)>)
    requires !HasDuplicateName(list)
    ensures |EntryMap(list)| == |list|
    ensures forall i :: 0 <= i < |list| ==> list[i].0 in EntryMap(list) && EntryMap(list)[list[i].0] == list[i].1
    decreases |list|
  {
    if |list| > 0 {
      var init, last := list[..|list| - 1], list[|list| - 1];
      assert !HasDuplicateName(init) by {
        forall i, j | 0 <= i < j < |init| ensures init[i].0 != init[j].0 {
          assert init[i] == list[i] && init[j] == list[j];
        }
      }
      EntryMapOfDistinct(init);
      EntryMapKeys(init, last.0);
      assert last.0 !in EntryMap(init) by {
        forall i | 0 <= i < |init| ensures init[i].0 != last.0 {
          assert init[i] == list[i];
        }
      }
      forall i | 0 <= i < |list| ensures list[i].0 in EntryMap(list) && EntryMap(list)[list[i].0] == list[i].1 {
        if i < |init| {
          assert init[i] == list[i];
        }
      }
    }
  }

  class IndexedZipEntries<E> {
    const reader: ZipArchiveReader
    const entries: map<string, E>
    var isDisposed: bool
    /** Disposals the reader had seen when the index took it over. */
    ghost const readerDisposalsBefore: nat

    /** The reader is disposed once when the index is, and never otherwise. */
    ghost predicate Valid()
      reads this, reader
    {
      reader.disposals == readerDisposalsBefore + (if isDisposed then 1 else 0)
    }

    constructor (reader: ZipArchiveReader, entries: map<string, E>)
      ensures this.reader == reader && this.entries == entries
      ensures !isDisposed && Valid()
    {
      this.entries := entries;
      isDisposed := false;
      this.reader := reader;
      readerDisposalsBefore := reader.disposals;
    }

    /** The number of entries, or the exception once disposed. */
    method Count() returns (r: Result<nat>)
      ensures r.ObjectDisposed? <==> isDisposed
      ensures r.Success? ==> r.value == |entries|
    {
      if isDisposed {
        return ObjectDisposed;
      }
      return Success(|entries|);
    }

    /** The entry stored under a name, None when there is none, or the exception once disposed. */
    method Get(entryName: string) returns (r: Result<Option<E>>)
      ensures r.ObjectDisposed? <==> isDisposed
      ensures r.Success? ==> (r.value.Some? <==> entryName in entries)
      ensures r.Success? && r.value.Some? ==> r.value.value == entries[entryName]
    {
      if isDisposed {
        return ObjectDisposed;
      }
      return if entryName in entries then Success(Some(entries[entryName])) else Success(None);
    }

    /** Disposes the reader on the first call only; the index stays disposed. */
    method Dispose()
      requires Valid()
      modifies this, reader
      ensures isDisposed && Valid()
      ensures reader.disposals == old(reader.disposals) + (if old(isDisposed) then 0 else 1)
    {
      if !isDisposed {
        reader.Dispose();
        isDisposed := true;
      }
    }
  }

  /** The outcome of CreateInstance: the index, or the ArgumentException raised by a
      second entry with the same full name (the reader is then left open). */
  datatype Created<E> = Created(index: IndexedZipEntries<E>) | DuplicateFullName(name: string)

  /** Opens the reader and indexes its entries, given in archive order with their full names. */
  method CreateInstance<E>(entryList: seq<(string, E)>) returns (r: Created<E>)
    ensures r.DuplicateFullName? <==> HasDuplicateName(entryList)
    ensures r.DuplicateFullName? ==> exists i, j :: 0 <= i < j < |entryList| && entryList[i].0 == entryList[j].0 == r.name
    ensures r.Created? ==> fresh(r.index) && fresh(r.index.reader)
    ensures r.Created? ==> r.index.entries == EntryMap(entryList) && !r.index.isDisposed && r.index.Valid()
  {
    var zipReader := new ZipArchiveReader();
    var entries: map<string, E> := map[];
    var i := 0;
    while i < |entryList|
      invariant 0 <= i <= |entryList|
      invariant entries == EntryMap(entryList[..i])
      invariant !HasDuplicateName(entryList[..i])
    {
      var name := entryList[i].0;
      assert entryList[..i + 1][..i] == entryList[..i];
      EntryMapKeys(entryList[..i], name);
      if name in entries {
        var j :| 0 <= j < i && entryList[..i][j].0 == name;
        assert entryList[j].0 == entryList[i].0 == name;
        return DuplicateFullName(name);
      }
      var grown := entryList[..i + 1];
      assert !HasDuplicateName(grown) by {
        forall a, b | 0 <= a < b < i + 1 ensures grown[a].0 != grown[b].0 {
          if b < i {
            assert entryList[..i][a] == entryList[a] && entryList[..i][b] == entryList[b];
          } else {
            assert entryList[..i][a] == entryList[a];
          }
        }
      }
      entries := entries[name := entryList[i].1];
      i := i + 1;
    }
    assert entryList[..i] == entryList;
    var index := new IndexedZipEntries(zipReader, entries);
    return Created(index);
  }
}
