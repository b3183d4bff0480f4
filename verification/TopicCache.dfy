/**
 The topic cache of src/aclk/aclk_util.c: the cloud sends a list of topic templates, and the agent keeps for each of
 them the topic with the claim id filled in. The claim id does not change during one rebuild.
 */
module TopicCaches {
  import Bytes
  import opened Options

  const REPLACE_TAG := "#{claim_id}"
  const KEY_NAME := "name"
  const KEY_TOPIC := "topic"

  /** The topic ids are the positions in this table, counted from 1; 0 is the unknown topic. */
  const TOPIC_NAMES: seq<string> := [
    "chart", "alarms", "meta", "inbox-cmd", "agent-connection", "inbox-cmd-v1", "create-node-instance",
    "node-instance-connection", "chart-and-dims-updated", "chart-configs-updated", "reset-charts",
    "chart-retention-updated", "node-instance-info", "alarm-log-v2", "alarm-checkpoint", "alarm-config",
    "alarm-snapshot-v2", "node-instance-collectors", "contexts-snapshot", "contexts-updated"]

  const UNKNOWN: nat := 0

  function IndexOf(names: seq<string>, name: string): (i: nat)
    ensures i <= |names|
    ensures i < |names| ==> names[i] == name
    ensures forall j | 0 <= j < i :: names[j] != name
  {
    if names == [] || names[0] == name then 0
    else
      assert forall j | 0 < j < |names| :: names[j] == names[1..][j - 1];
      IndexOf(names[1..], name) + 1
  }

  function NameToId(name: string): nat {
    var i := IndexOf(TOPIC_NAMES, name);
    if i == |TOPIC_NAMES| then UNKNOWN else i + 1
  }

  /** No name occurs twice in the table. */
  lemma NamesDiffer(i: nat, j: nat)
    requires i < j < |TOPIC_NAMES|
    ensures TOPIC_NAMES[i] != TOPIC_NAMES[j]
  {
  }

  predicate AllDiffer(names: seq<string>) {
    forall i, j | 0 <= i < j < |names| :: names[i] != names[j]
  }

  lemma PlaceByName(names: seq<string>, name: string, k: nat)
    requires AllDiffer(names)
    ensures k < |names| ==> (IndexOf(names, name) == k <==> name == names[k])
    ensures IndexOf(names, name) == |names| <==> name !in names
  {
  }

  /** A topic has the id of its place in the table, counted from 1, and an unknown name has none. */
  lemma IdsByName(name: string, k: nat)
    ensures k < |TOPIC_NAMES| ==> (NameToId(name) == k + 1 <==> name == TOPIC_NAMES[k])
    ensures NameToId(name) == UNKNOWN <==> name !in TOPIC_NAMES
  {
    assert AllDiffer(TOPIC_NAMES) by {
      forall i, j | 0 <= i < j < |TOPIC_NAMES|
        ensures TOPIC_NAMES[i] != TOPIC_NAMES[j]
      {
        NamesDiffer(i, j);
      }
    }
    PlaceByName(TOPIC_NAMES, name, k);
  }

  lemma TopicAt(name: string, k: nat)
    requires k < |TOPIC_NAMES| && TOPIC_NAMES[k] == name
    ensures NameToId(name) == k + 1
  {
    IdsByName(name, k);
  }

  /** The topics that the link thread asks for: its two subscriptions and its last will. */
  lemma LinkTopics(command: string, connection: string, commandV1: string)
    requires command == "inbox-cmd" && connection == "agent-connection" && commandV1 == "inbox-cmd-v1"
    ensures NameToId(command) == 4 && NameToId(connection) == 5 && NameToId(commandV1) == 6
  {
    TopicAt(command, 3);
    TopicAt(connection, 4);
    TopicAt(commandV1, 5);
  }

  // ---- what the cloud sends --------------------------------------------------------------------------

  datatype Value = Text(text: string) | NotText

  /** An element of the list: an object with its fields in order, or something else. */
  datatype Description = Object(fields: seq<(string, Value)>) | NotObject

  /** The topic id and template read so far, or a field of the wrong type. */
  datatype Reading = BadField | Reading(id: nat, template: Option<string>)

  function ReadField(r: Reading, field: (string, Value)): Reading {
    if r.BadField? then r
    else if field.0 == KEY_NAME then
      if field.1.Text? then r.(id := NameToId(field.1.text)) else BadField
    else if field.0 == KEY_TOPIC then
      if field.1.Text? then r.(template := Some(field.1.text)) else BadField
    else r
  }

  function ReadFields(fields: seq<(string, Value)>): Reading {
    if fields == [] then Reading(UNKNOWN, None)
    else ReadField(ReadFields(fields[..|fields| - 1]), fields[|fields| - 1])
  }

  /** The description gives a template: it is an object with a topic, and its name and topic are texts. */
  predicate Good(d: Description) {
    d.Object? && ReadFields(d.fields).Reading? && ReadFields(d.fields).template.Some?
  }

  function IdOf(d: Description): nat
    requires Good(d)
  {
    ReadFields(d.fields).id
  }

  function TemplateOf(d: Description): string
    requires Good(d)
  {
    ReadFields(d.fields).template.value
  }

  // ---- what a description says, without reading its fields in order -----------------------------------

  predicate LastAt(fields: seq<(string, Value)>, key: string, text: string, i: nat) {
    i < |fields| && fields[i] == (key, Text(text)) && forall j | i < j < |fields| :: fields[j].0 != key
  }

  /** The last field with this key is the text. */
  ghost predicate Says(d: Description, key: string, text: string) {
    d.Object? && exists i: nat :: LastAt(d.fields, key, text, i)
  }

  /** An object with a topic, whose names and topics are texts. */
  predicate WellFormed(d: Description) {
    && d.Object?
    && (forall i | 0 <= i < |d.fields| && d.fields[i].0 in [KEY_NAME, KEY_TOPIC] :: d.fields[i].1.Text?)
    && (exists i | 0 <= i < |d.fields| :: d.fields[i].0 == KEY_TOPIC)
  }

  lemma {:induction false} FieldsMean(fields: seq<(string, Value)>)
    ensures ReadFields(fields).BadField? <==>
      exists i | 0 <= i < |fields| :: fields[i].0 in [KEY_NAME, KEY_TOPIC] && fields[i].1.NotText?
    ensures ReadFields(fields).Reading? ==>
      (ReadFields(fields).template.Some? <==> exists i | 0 <= i < |fields| :: fields[i].0 == KEY_TOPIC)
    decreases |fields|
  {
    if fields != [] {
      var n := |fields| - 1;
      FieldsMean(fields[..n]);
      assert forall i | 0 <= i < n :: fields[..n][i] == fields[i];
    }
  }

  lemma GoodMeans(d: Description)
    ensures Good(d) <==> WellFormed(d)
  {
    if d.Object? {
      FieldsMean(d.fields);
    }
  }

  lemma LastAtMore(fields: seq<(string, Value)>, key: string, text: string, i: nat)
    requires fields != []
    ensures var n := |fields| - 1;
      LastAt(fields, key, text, i) <==>
        if i == n then fields[n] == (key, Text(text)) else fields[n].0 != key && LastAt(fields[..n], key, text, i)
  {
    var n := |fields| - 1;
    assert forall j | 0 <= j < n :: fields[..n][j] == fields[j];
  }

  lemma SaysMore(fields: seq<(string, Value)>, key: string, text: string)
    requires fields != []
    ensures var last := fields[|fields| - 1];
      Says(Object(fields), key, text) <==>
        last == (key, Text(text)) || (last.0 != key && Says(Object(fields[..|fields| - 1]), key, text))
  {
    var n := |fields| - 1;
    LastAtMore(fields, key, text, n);
    if i: nat :| LastAt(fields, key, text, i) {
      LastAtMore(fields, key, text, i);
    }
    if i: nat :| LastAt(fields[..n], key, text, i) {
      LastAtMore(fields, key, text, i);
    }
  }

  /** The template is the text of the last topic, and the id stands for the text of the last name. */
  lemma {:induction false} ReadingMeans(fields: seq<(string, Value)>, text: string)
    requires ReadFields(fields).Reading?
    ensures ReadFields(fields).template == Some(text) <==> Says(Object(fields), KEY_TOPIC, text)
    ensures Says(Object(fields), KEY_NAME, text) ==> ReadFields(fields).id == NameToId(text)
    ensures (forall t :: !Says(Object(fields), KEY_NAME, t)) ==> ReadFields(fields).id == UNKNOWN
    decreases |fields|
  {
    if fields != [] {
      var n := |fields| - 1;
      ReadingMeans(fields[..n], text);
      SaysMore(fields, KEY_TOPIC, text);
      SaysMore(fields, KEY_NAME, text);
      if fields[n].0 == KEY_NAME {
        SaysMore(fields, KEY_NAME, fields[n].1.text);
        assert Says(Object(fields), KEY_NAME, fields[n].1.text);
      } else {
        forall t
          ensures Says(Object(fields), KEY_NAME, t) <==> Says(Object(fields[..n]), KEY_NAME, t)
        {
          SaysMore(fields, KEY_NAME, t);
        }
      }
    }
  }

  /** A description is about a topic of the table exactly if its last name is the name of that topic. */
  lemma NamedMeans(d: Description, k: nat)
    requires Good(d) && k < |TOPIC_NAMES|
    ensures IdOf(d) == k + 1 <==> Says(d, KEY_NAME, TOPIC_NAMES[k])
  {
    ReadingMeans(d.fields, TOPIC_NAMES[k]);
    TopicAt(TOPIC_NAMES[k], k);
    if IdOf(d) == k + 1 {
      var t :| Says(d, KEY_NAME, t);
      ReadingMeans(d.fields, t);
      IdsByName(t, k);
    }
  }

  lemma TemplateMeans(d: Description)
    requires Good(d)
    ensures Says(d, KEY_TOPIC, TemplateOf(d))
  {
    ReadingMeans(d.fields, TemplateOf(d));
  }

  // ---- substitution ----------------------------------------------------------------------------------

  /** The first occurrence of `needle`, as `strstr` finds it. */
  function Locate(hay: string, needle: string): (i: Option<nat>)
    ensures i.Some? ==> Bytes.OccursAt(hay, needle, i.value)
    ensures i.Some? ==> forall j | 0 <= j < i.value :: !Bytes.OccursAt(hay, needle, j)
    ensures i.None? ==> forall j: nat :: !Bytes.OccursAt(hay, needle, j)
  {
    if Bytes.OccursAt(hay, needle, 0) then Some(0)
    else if hay == [] then None
    else
      assert forall j | 0 < j :: Bytes.OccursAt(hay, needle, j) <==> Bytes.OccursAt(hay[1..], needle, j - 1) by {
        OccursLater(hay, needle);
      }
      match Locate(hay[1..], needle)
      case None => None
      case Some(i) => Some(i + 1)
  }

  lemma OccursLater(hay: string, needle: string)
    requires hay != []
    ensures forall j | 0 < j :: Bytes.OccursAt(hay, needle, j) <==> Bytes.OccursAt(hay[1..], needle, j - 1)
  {
    forall j | 0 < j
      ensures Bytes.OccursAt(hay, needle, j) <==> Bytes.OccursAt(hay[1..], needle, j - 1)
    {
      if j + |needle| <= |hay| {
        assert hay[j..j + |needle|] == hay[1..][j - 1..j - 1 + |needle|];
      }
    }
  }

  /** The template with its first tag replaced by the claim id; nothing without a tag or without a claim id. */
  function Final(template: string, claim: Option<string>): Option<string> {
    match Locate(template, REPLACE_TAG)
    case None => None
    case Some(i) =>
      if claim.None? then None else Some(template[..i] + claim.value + template[i + |REPLACE_TAG|..])
  }

  /** The topic is `template` with the first tag exchanged for the claim id, and nothing else changed. */
  ghost predicate Fills(topic: string, template: string, claim: string) {
    exists head: string, tail: string ::
      && template == head + REPLACE_TAG + tail
      && topic == head + claim + tail
      && forall j | 0 <= j < |head| :: !Bytes.OccursAt(template, REPLACE_TAG, j)
  }

  lemma FinalFills(template: string, claim: Option<string>)
    ensures Final(template, claim).Some? <==> claim.Some? && Bytes.Contains(template, REPLACE_TAG)
    ensures Final(template, claim).Some? ==>
      && Fills(Final(template, claim).value, template, claim.value)
      && |Final(template, claim).value| == |template| - |REPLACE_TAG| + |claim.value|
  {
    var at := Locate(template, REPLACE_TAG);
    if at.Some? {
      var head, tail := template[..at.value], template[at.value + |REPLACE_TAG|..];
      assert Bytes.OccursAt(template, REPLACE_TAG, at.value);
      assert template == head + REPLACE_TAG + tail;
    }
  }

  // ---- the cache as a value --------------------------------------------------------------------------

  datatype Entry = Entry(id: nat, template: string, topic: Option<string>)

  function EntryOf(d: Description, claim: Option<string>): Entry
    requires Good(d)
  {
    Entry(IdOf(d), TemplateOf(d), Final(TemplateOf(d), claim))
  }

  /** The number of descriptions before the first bad one. */
  function GoodCount(json: seq<Description>): (n: nat)
    ensures n <= |json|
    ensures forall i | 0 <= i < n :: Good(json[i])
    ensures n < |json| ==> !Good(json[n])
  {
    if json == [] || !Good(json[0]) then 0 else GoodCount(json[1..]) + 1
  }

  function Entries(json: seq<Description>, claim: Option<string>): (entries: seq<Entry>)
    requires forall i | 0 <= i < |json| :: Good(json[i])
    ensures |entries| == |json|
    ensures forall i | 0 <= i < |json| :: entries[i] == EntryOf(json[i], claim)
  {
    seq(|json|, i requires 0 <= i < |json| => EntryOf(json[i], claim))
  }

  /** `aclk_get_topic` on the counted entries */
  function Lookup(entries: seq<Entry>, id: nat): Option<string> {
    if entries == [] then None
    else if entries[0].id == id then entries[0].topic
    else Lookup(entries[1..], id)
  }

  /** Every topic in the table is compulsory. */
  predicate Complete(entries: seq<Entry>) {
    forall id | 1 <= id <= 20 :: Lookup(entries, id).Some?
  }

  /** The cache, if there is one. */
  type Cache = Option<seq<Entry>>

  function Loaded(json: seq<Description>, claim: Option<string>): seq<Entry> {
    Entries(json[..GoodCount(json)], claim)
  }

  /** `aclk_generate_topic_cache`: the new cache, and whether the rebuild succeeded. */
  function Rebuild(cache: Cache, json: seq<Description>, claim: Option<string>): (Cache, bool) {
    if json == [] then (cache, false)
    else
      var entries := Loaded(json, claim);
      (Some(entries), |entries| == |json| && Complete(entries))
  }

  /** `aclk_get_topic` */
  function Get(cache: Cache, id: nat): Option<string> {
    match cache case None => None case Some(entries) => Lookup(entries, id)
  }

  // ---- what a rebuild achieves -----------------------------------------------------------------------

  /** The first description with this id, or the length of the list. */
  function FirstWith(json: seq<Description>, id: nat): (k: nat)
    requires forall i | 0 <= i < |json| :: Good(json[i])
    ensures k <= |json|
    ensures k < |json| ==> IdOf(json[k]) == id
    ensures forall i | 0 <= i < k :: IdOf(json[i]) != id
  {
    if json == [] || IdOf(json[0]) == id then 0
    else
      assert forall i | 0 < i < |json| :: json[i] == json[1..][i - 1];
      FirstWith(json[1..], id) + 1
  }

  lemma {:induction false} LookupFirst(json: seq<Description>, claim: Option<string>, id: nat)
    requires forall i | 0 <= i < |json| :: Good(json[i])
    ensures var k := FirstWith(json, id);
      Lookup(Entries(json, claim), id) == if k < |json| then Final(TemplateOf(json[k]), claim) else None
    decreases |json|
  {
    if json != [] && IdOf(json[0]) != id {
      LookupFirst(json[1..], claim, id);
      assert Entries(json, claim)[1..] == Entries(json[1..], claim);
    }
  }

  /** The description at `i` is the first one for this topic of the table, and `template` is its template. */
  ghost predicate FirstNamed(json: seq<Description>, name: string, i: nat, template: string) {
    && i < |json| && Says(json[i], KEY_NAME, name) && Says(json[i], KEY_TOPIC, template)
    && forall j | 0 <= j < i :: !Says(json[j], KEY_NAME, name)
  }

  lemma FirstByName(json: seq<Description>, k: nat)
    requires (forall i | 0 <= i < |json| :: Good(json[i])) && k < |TOPIC_NAMES|
    ensures var i := FirstWith(json, k + 1);
      && (i < |json| ==> FirstNamed(json, TOPIC_NAMES[k], i, TemplateOf(json[i])))
      && (i == |json| ==> forall j | 0 <= j < |json| :: !Says(json[j], KEY_NAME, TOPIC_NAMES[k]))
  {
    var i := FirstWith(json, k + 1);
    forall j | 0 <= j < |json|
      ensures IdOf(json[j]) == k + 1 <==> Says(json[j], KEY_NAME, TOPIC_NAMES[k])
    {
      NamedMeans(json[j], k);
    }
    if i < |json| {
      TemplateMeans(json[i]);
    }
  }

  lemma SaysOne(d: Description, key: string, s: string, t: string)
    requires Says(d, key, s) && Says(d, key, t)
    ensures s == t
  {
  }

  lemma FirstNamedUnique(json: seq<Description>, name: string, i: nat, s: string, j: nat, t: string)
    requires FirstNamed(json, name, i, s) && FirstNamed(json, name, j, t)
    ensures i == j && s == t
  {
    SaysOne(json[i], KEY_TOPIC, s, t);
  }

  /** Some description names the topic, and the first one that does has a tag to replace. */
  ghost predicate Usable(json: seq<Description>, name: string) {
    exists i: nat, template: string :: FirstNamed(json, name, i, template) && Bytes.Contains(template, REPLACE_TAG)
  }

  lemma UsableMeans(json: seq<Description>, k: nat)
    requires (forall i | 0 <= i < |json| :: Good(json[i])) && k < |TOPIC_NAMES|
    ensures var i := FirstWith(json, k + 1);
      Usable(json, TOPIC_NAMES[k]) <==> i < |json| && Bytes.Contains(TemplateOf(json[i]), REPLACE_TAG)
  {
    FirstByName(json, k);
    var i := FirstWith(json, k + 1);
    if j: nat, t :| FirstNamed(json, TOPIC_NAMES[k], j, t) && Bytes.Contains(t, REPLACE_TAG) {
      if i < |json| {
        FirstNamedUnique(json, TOPIC_NAMES[k], i, TemplateOf(json[i]), j, t);
      }
    }
  }

  lemma {:induction false} AllGood(json: seq<Description>)
    ensures GoodCount(json) == |json| <==> forall i | 0 <= i < |json| :: Good(json[i])
  {
    var n := GoodCount(json);
    if n < |json| {
      assert !Good(json[n]);
    }
  }

  lemma AllWellFormed(json: seq<Description>)
    ensures (forall i | 0 <= i < |json| :: Good(json[i])) <==> (forall i | 0 <= i < |json| :: WellFormed(json[i]))
  {
    forall i | 0 <= i < |json|
      ensures Good(json[i]) <==> WellFormed(json[i])
    {
      GoodMeans(json[i]);
    }
  }

  lemma LookupUsable(json: seq<Description>, claim: Option<string>, k: nat)
    requires (forall i | 0 <= i < |json| :: Good(json[i])) && k < |TOPIC_NAMES|
    ensures Lookup(Entries(json, claim), k + 1).Some? <==> claim.Some? && Usable(json, TOPIC_NAMES[k])
  {
    LookupFirst(json, claim, k + 1);
    UsableMeans(json, k);
    var i := FirstWith(json, k + 1);
    if i < |json| {
      FinalFills(TemplateOf(json[i]), claim);
    }
  }

  /**
   A rebuild succeeds exactly if the list is not empty, every element is a well-formed description, the agent is
   claimed, and the first description of every topic of the table has a tag.
   */
  lemma RebuildSucceedsExactly(cache: Cache, json: seq<Description>, claim: Option<string>)
    ensures Rebuild(cache, json, claim).1 <==>
      && json != []
      && (forall i | 0 <= i < |json| :: WellFormed(json[i]))
      && claim.Some?
      && forall k | 0 <= k < |TOPIC_NAMES| :: Usable(json, TOPIC_NAMES[k])
  {
    AllGood(json);
    AllWellFormed(json);
    if GoodCount(json) == |json| {
      assert json[..|json|] == json;
      var entries := Entries(json, claim);
      forall id | 1 <= id <= 20
        ensures Lookup(entries, id).Some? <==> claim.Some? && Usable(json, TOPIC_NAMES[id - 1])
      {
        LookupUsable(json, claim, id - 1);
      }
      if Complete(entries) {
        assert Lookup(entries, 1).Some?;
        forall k | 0 <= k < |TOPIC_NAMES|
          ensures Usable(json, TOPIC_NAMES[k])
        {
          var id := k + 1;
          assert Lookup(entries, id).Some?;
        }
      }
    }
  }

  /**
   After a successful rebuild the id of every topic resolves to the first template sent under the name of that topic,
   with the claim id filled in.
   */
  lemma CompulsoryTopicsResolve(cache: Cache, json: seq<Description>, claim: Option<string>, k: nat)
    returns (i: nat, template: string)
    requires Rebuild(cache, json, claim).1 && k < |TOPIC_NAMES|
    ensures claim.Some? && FirstNamed(json, TOPIC_NAMES[k], i, template)
    ensures var topic := Get(Rebuild(cache, json, claim).0, k + 1);
      topic.Some? && Fills(topic.value, template, claim.value)
  {
    RebuildSucceedsExactly(cache, json, claim);
    AllGood(json);
    AllWellFormed(json);
    assert json[..|json|] == json;
    LookupFirst(json, claim, k + 1);
    UsableMeans(json, k);
    FirstByName(json, k);
    i := FirstWith(json, k + 1);
    template := TemplateOf(json[i]);
    FinalFills(template, claim);
  }

  // ---- histories -------------------------------------------------------------------------------------

  datatype Op = FreeCache | RebuildWith(json: seq<Description>, claim: Option<string>)

  function Apply(cache: Cache, op: Op): Cache {
    match op
    case FreeCache => None
    case RebuildWith(json, claim) => Rebuild(cache, json, claim).0
  }

  function History(cache: Cache, ops: seq<Op>): Cache {
    if ops == [] then cache else Apply(History(cache, ops[..|ops| - 1]), ops[|ops| - 1])
  }

  predicate LeavesCache(op: Op) {
    op.RebuildWith? && op.json == []
  }

  /** The cache depends only on the last operation that was not a rebuild from an empty list. */
  lemma {:induction false} OnlyLastMatters(cache: Cache, before: seq<Op>, op: Op, after: seq<Op>)
    requires !LeavesCache(op)
    requires forall i | 0 <= i < |after| :: LeavesCache(after[i])
    ensures History(cache, before + [op] + after) ==
      if op.FreeCache? then None else Some(Loaded(op.json, op.claim))
    decreases |after|
  {
    var ops := before + [op] + after;
    if after == [] {
      assert ops[..|ops| - 1] == before && ops[|ops| - 1] == op;
    } else {
      var n := |after| - 1;
      OnlyLastMatters(cache, before, op, after[..n]);
      assert ops[..|ops| - 1] == before + [op] + after[..n] && ops[|ops| - 1] == after[n];
    }
  }
}
