/** The topic cache of src/aclk/aclk_util.c in memory: an array of topic records and a count of the finished ones. */
module TopicCacheStore {
  import opened Options
  import opened TopicCaches

  class Topic {
    var topicId: nat
    var topicRecvd: Option<string>
    var topic: Option<string>

    /** A zeroed record */
    constructor ()
      ensures topicId == UNKNOWN && topicRecvd == None && topic == None
    {
      topicId, topicRecvd, topic := UNKNOWN, None, None;
    }

    ghost predicate Holds(e: Entry)
      reads this
    {
      topicId == e.id && topicRecvd == Some(e.template) && topic == e.topic
    }
  }

  method CopyTo(dest: array<char>, at: nat, text: string)
    requires at + |text| <= dest.Length
    modifies dest
    ensures dest[..at] == old(dest[..at]) && dest[at..at + |text|] == text
    ensures dest[at + |text|..] == old(dest[at + |text|..])
  {
    for i := 0 to |text|
      invariant dest[..at] == old(dest[..at]) && dest[at..at + i] == text[..i]
      invariant dest[at + i..] == old(dest[at + i..])
    {
      dest[at + i] := text[i];
    }
  }

  /** The buffer of `topic_generate_final`: the allocation holds the topic and its terminator, and no byte more. */
  method FillTopic(template: string, tag: nat, claim: string) returns (dest: array<char>)
    requires Bytes.OccursAt(template, REPLACE_TAG, tag)
    ensures fresh(dest)
    ensures dest[..] == template[..tag] + claim + template[tag + |REPLACE_TAG|..] + [Bytes.NUL]
  {
    dest := new char[|template| + 1 - |REPLACE_TAG| + |claim|];
    var rest := template[tag + |REPLACE_TAG|..];
    CopyTo(dest, 0, template[..tag]);
    CopyTo(dest, tag, claim);
    assert dest[..tag + |claim|] == template[..tag] + claim;
    CopyTo(dest, tag + |claim|, rest);
    dest[tag + |claim| + |rest|] := Bytes.NUL;
    assert dest[..] == dest[..tag + |claim|] + dest[tag + |claim|..tag + |claim| + |rest|] + [Bytes.NUL];
  }

  class TopicCache {
    var cache: array?<Topic?>
    var items: nat
    /** The finished records and what they hold. */
    ghost var topics: seq<Topic>
    ghost var entries: seq<Entry>

    /** Every slot below the count is a finished record. */
    ghost predicate Slots()
      reads this, cache, topics
    {
      && cache != null && items == |topics| == |entries| && items <= cache.Length
      && forall i | 0 <= i < items :: cache[i] == topics[i] && topics[i].Holds(entries[i])
    }

    ghost predicate Valid()
      reads this, cache, topics
    {
      if cache == null then items == 0 && topics == [] && entries == [] else Slots()
    }

    ghost function Contents(): Cache
      reads this
    {
      if cache == null then None else Some(entries)
    }

    constructor ()
      ensures Valid() && Contents() == None
    {
      cache, items, topics, entries := null, 0, [], [];
    }

    /** `free_topic_cache` */
    method FreeTopicCache()
      requires Valid()
      modifies this
      ensures Valid() && cache == null
    {
      if cache != null {
        cache, items, topics, entries := null, 0, [], [];
      }
    }

    /** The fields loop of `topic_cache_add_topic` */
    static method ReadTopic(fields: seq<(string, Value)>, topic: Topic) returns (failed: bool)
      requires topic.topicId == UNKNOWN && topic.topicRecvd == None && topic.topic == None
      modifies topic
      ensures failed <==> ReadFields(fields).BadField?
      ensures !failed ==> ReadFields(fields) == Reading(topic.topicId, topic.topicRecvd)
      ensures topic.topic == None
    {
      var i := 0;
      while i < |fields|
        invariant 0 <= i <= |fields|
        invariant ReadFields(fields[..i]) == Reading(topic.topicId, topic.topicRecvd)
        invariant topic.topic == None
      {
        assert fields[..i + 1][..i] == fields[..i];
        var (key, value) := fields[i];
        if key == KEY_NAME {
          if value.NotText? {
            BadFieldStays(fields, i + 1);
            return true;
          }
          topic.topicId := NameToId(value.text);
        } else if key == KEY_TOPIC {
          if value.NotText? {
            BadFieldStays(fields, i + 1);
            return true;
          }
          topic.topicRecvd := Some(value.text);
        }
        i := i + 1;
      }
      assert fields[..|fields|] == fields;
      failed := false;
    }

    /** `topic_generate_final` */
    static method GenerateFinal(topic: Topic, claim: Option<string>)
      requires topic.topicRecvd.Some? && topic.topic == None
      modifies topic`topic
      ensures topic.topic == Final(topic.topicRecvd.value, claim)
    {
      var template := topic.topicRecvd.value;
      var tag := Locate(template, REPLACE_TAG);
      if tag.None? || claim.None? {
        return;
      }
      var dest := FillTopic(template, tag.value, claim.value);
      topic.topic := Some(dest[..dest.Length - 1]);
    }

    /** `topic_cache_add_topic`; a finished record is counted */
    method AddTopic(d: Description, topic: Topic, claim: Option<string>) returns (failed: bool)
      requires Slots() && items < cache.Length && cache[items] == topic && topic !in topics
      requires topic.topicId == UNKNOWN && topic.topicRecvd == None && topic.topic == None
      requires d.Object?
      modifies topic, this`items, this`topics, this`entries
      ensures Slots() && (failed <==> !Good(d))
      ensures topics == old(topics) + (if Good(d) then [topic] else [])
      ensures entries == old(entries) + (if Good(d) then [EntryOf(d, claim)] else [])
    {
      failed := ReadTopic(d.fields, topic);
      if failed || topic.topicRecvd.None? {
        return true;
      }
      GenerateFinal(topic, claim);
      items := items + 1;
      topics := topics + [topic];
      entries := entries + [EntryOf(d, claim)];
    }

    /** `aclk_get_topic` */
    method GetTopic(id: nat) returns (topic: Option<string>)
      requires Valid()
      ensures topic == Get(Contents(), id)
    {
      if cache == null {
        return None;
      }
      for i := 0 to items
        invariant Lookup(entries, id) == Lookup(entries[i..], id)
      {
        if cache[i].topicId == id {
          return cache[i].topic;
        }
        assert entries[i..][1..] == entries[i + 1..];
      }
      return None;
    }

    /** The loading loop of `aclk_generate_topic_cache` */
    method Load(json: seq<Description>, claim: Option<string>) returns (failed: bool)
      requires Slots() && items == 0 && cache.Length == |json|
      modifies this`items, this`topics, this`entries, cache
      ensures Slots() && entries == Loaded(json, claim) && (failed <==> GoodCount(json) < |json|)
    {
      for i := 0 to |json|
        invariant Slots() && items == i && cache == old(cache)
        invariant forall t | t in topics :: fresh(t)
        invariant forall j | 0 <= j < i :: Good(json[j])
        invariant entries == Entries(json[..i], claim)
      {
        if json[i].NotObject? {
          GoodPrefix(json, i);
          return true;
        }
        var topic := new Topic();
        cache[i] := topic;
        failed := AddTopic(json[i], topic, claim);
        if failed {
          GoodPrefix(json, i);
          return true;
        }
        assert json[..i + 1] == json[..i] + [json[i]];
      }
      AllGood(json);
      return false;
    }

    /** The check for compulsory topics in `aclk_generate_topic_cache` */
    method MissesCompulsory() returns (missing: bool)
      requires Slots()
      ensures missing <==> !Complete(entries)
    {
      for id := 1 to 21
        invariant forall j | 1 <= j < id :: Lookup(entries, j).Some?
      {
        var topic := GetTopic(id);
        if topic.None? {
          return true;
        }
      }
      return false;
    }

    /** `aclk_generate_topic_cache` */
    method Generate(json: seq<Description>, claim: Option<string>) returns (failed: bool)
      requires Valid()
      modifies this
      ensures Valid() && (Contents(), !failed) == Rebuild(old(Contents()), json, claim)
    {
      if json == [] {
        return true;
      }
      FreeTopicCache();
      cache := new Topic?[|json|](_ => null);
      failed := Load(json, claim);
      if !failed {
        failed := MissesCompulsory();
      }
    }
  }

  lemma {:induction false} BadFieldStays(fields: seq<(string, Value)>, i: nat)
    requires i <= |fields| && ReadFields(fields[..i]).BadField?
    ensures ReadFields(fields).BadField?
    decreases |fields| - i
  {
    if i == |fields| {
      assert fields[..i] == fields;
    } else {
      assert fields[..i + 1][..i] == fields[..i];
      BadFieldStays(fields, i + 1);
    }
  }

  lemma {:induction false} GoodPrefix(json: seq<Description>, i: nat)
    requires i < |json| && !Good(json[i]) && forall j | 0 <= j < i :: Good(json[j])
    ensures GoodCount(json) == i
  {
    if i > 0 {
      GoodPrefix(json[1..], i - 1);
    }
  }
}
