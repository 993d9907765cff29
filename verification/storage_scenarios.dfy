/**
 The usage scenarios the sweeping registry is exercised with, stated for
 every non-negative TTL and every instant rather than for one run (the
 expiration scenario holds for every TTL).
 */
module StorageScenarios {
  import opened Storage
  import opened SyncStorage

  /** Create, read, update, read, delete, read on one key. */
  lemma BasicCrud(ttl: int, now: int)
    requires ttl >= 0
    ensures var key := "zxcvf";
      var v1 := Scalar("London is the capital of ...");
      var v2 := Scalar("Mordor is the land of...");
      var s0 := InitSyncStorage(ttl);
      var s1 := AppendNewValue(s0, key, v1, now).store;
      var s2 := UpdateValueByKey(s1, key, v2, now).store;
      var s3 := DeleteValueByKey(s2, key).store;
      && GetValueByKey(s1, key, now) == Some(Entry(v1, now))
      && GetValueByKey(s2, key, now) == Some(Entry(v2, now))
      && GetValueByKey(s3, key, now) == None
  {
  }

  /** Index reads on a stored sequence: an index inside the sequence, one
      past its end and a negative one. */
  lemma NestedArrayOps(ttl: int, now: int)
    requires ttl >= 0
    ensures var key := "hjkl";
      var s := AppendNewValue(InitSyncStorage(ttl), key, List(["Alpha", "Bravo", "Charlie"]), now).store;
      && GetNestedValueByKeyAndIndex(s, key, 1, now) == NestedResult(Some(Entry(Scalar("Bravo"), now)), true, None)
      && GetNestedValueByKeyAndIndex(s, key, 10, now) == NestedResult(None, false, Some(IndexOutOfRange))
      && GetNestedValueByKeyAndIndex(s, key, -13, now) == NestedResult(None, false, Some(IndexOutOfRange))
  {
  }

  /** Sub-key reads on a stored mapping: a present and a missing sub-key. */
  lemma NestedDictionaryOps(ttl: int, now: int)
    requires ttl >= 0
    ensures var key := "qwegs";
      var d := map["the_first" := "Nicolas", "the_second" := "Francois"];
      var s := AppendNewValue(InitSyncStorage(ttl), key, Dict(d), now).store;
      && GetNestedValueByKeyAndSubkey(s, key, "the_second", now) == NestedResult(Some(Entry(Scalar("Francois"), now)), true, None)
      && GetNestedValueByKeyAndSubkey(s, key, "the_third", now) == NestedResult(Some(Entry(Scalar(""), now)), false, None)
  {
  }

  /** Nested reads of the wrong shape: an index into a mapping and a
      sub-key into a sequence are both refused with an error. */
  lemma ShapeMismatch(ttl: int, now: int)
    requires ttl >= 0
    ensures var aKey := "hjkl";
      var dKey := "qwegs";
      var s0 := InitSyncStorage(ttl);
      var s1 := AppendNewValue(s0, aKey, List(["Alpha", "Bravo", "Charlie"]), now).store;
      var s2 := AppendNewValue(s1, dKey, Dict(map["the_first" := "Nicolas", "the_second" := "Francois"]), now).store;
      && GetNestedValueByKeyAndIndex(s2, dKey, 1, now) == NestedResult(None, false, Some(NotAnArray))
      && GetNestedValueByKeyAndSubkey(s2, aKey, "the_second", now) == NestedResult(None, false, Some(NotADictionary))
  {
  }

  /** Entries written at `t` and read after `t + ttl` are gone from every
      read path before any sweep, and a sweep then collects them. */
  lemma ExpirationOnDemand(ttl: int, t: int, now: int)
    requires now > t + ttl
    ensures var s0 := InitSyncStorage(ttl);
      var s1 := AppendNewValue(s0, "zxcvf", Scalar("London is the capital of ..."), t).store;
      var s2 := AppendNewValue(s1, "dusdfs", Dict(map["the_first" := "Nicolas", "the_second" := "Francois"]), t).store;
      && LiveKeys(s2, now) == {}
      && GetValueByKey(s2, "zxcvf", now) == None
      && !GetNestedValueByKeyAndSubkey(s2, "dusdfs", "the_second", now).found
      && Sweep(s2, now).registry == map[]
  {
    var s2 := AppendNewValue(AppendNewValue(InitSyncStorage(ttl), "zxcvf", Scalar("London is the capital of ..."), t).store,
      "dusdfs", Dict(map["the_first" := "Nicolas", "the_second" := "Francois"]), t).store;
    assert s2.registry.Keys == {"zxcvf", "dusdfs"};
    assert LiveKeys(s2, now) == {};
  }
}
