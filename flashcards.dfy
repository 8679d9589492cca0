/**
 * The flashcards module's public operations over the remoteStorage client it is given.
 * The client's store is modelled as a map from document path to record; the module
 * only composes paths out of group and id and normalises a record before writing it.
 */
module Flashcards {
  import opened Wrappers
  import opened DateFormat
  import opened Cards

  /** The documents the client holds, by path. */
  type Documents = map<string, Flashcard>

  /** A field as JavaScript's `+` writes it into a string: a missing one as "undefined". */
  function JsText(o: Option<string>): (s: string) {
    match o
    case Some(s) => s
    case None => "undefined"
  }

  /** The path of a record: `group + "/" + id`. */
  function PathOf(group: string, id: string): (path: string) {
    group + "/" + id
  }

  /** Where `store` writes a card: its group and `@id` joined into a path. */
  function StoragePath(card: Flashcard): (path: string) {
    PathOf(JsText(card.group), JsText(card.id))
  }

  /** The folder `getAllByGroup` reads: `(group || 'default') + '/'`. */
  function GroupFolder(group: Option<string>): (folder: string) {
    (if TruthyText(group) then group.value else DEFAULT_GROUP) + "/"
  }

  /** The client's `getObject(path)`: the record at the path, if any. */
  function Lookup(docs: Documents, path: string): (found: Option<Flashcard>) {
    if path in docs then Some(docs[path]) else None
  }

  /** A document directly inside the folder: the folder is a prefix and the rest has no `/`. */
  predicate InFolder(folder: string, path: string) {
    |folder| <= |path| && path[..|folder|] == folder && '/' !in path[|folder|..]
  }

  lemma InFolderSplit(folder: string, path: string)
    requires InFolder(folder, path)
    ensures path == folder + path[|folder|..]
  {
  }

  lemma InFolderJoin(folder: string, name: string)
    requires '/' !in name
    ensures InFolder(folder, folder + name) && (folder + name)[|folder|..] == name
  {
    assert (folder + name)[..|folder|] == folder;
  }

  /** The client's `getAll(folder)`: the documents directly inside the folder, keyed by
      their names relative to it. */
  function ItemsIn(docs: Documents, folder: string): (items: map<string, Flashcard>)
    ensures forall name :: name in items <==> '/' !in name && folder + name in docs
    ensures forall name :: name in items ==> items[name] == docs[folder + name]
  {
    var names := set path | path in docs && InFolder(folder, path) :: path[|folder|..];
    ItemsInNames(docs, folder, names);
    map name | name in names :: docs[folder + name]
  }

  lemma ItemsInNames(docs: Documents, folder: string, names: set<string>)
    requires names == set path | path in docs && InFolder(folder, path) :: path[|folder|..]
    ensures forall name :: name in names <==> '/' !in name && folder + name in docs
  {
    forall name
      ensures name in names <==> '/' !in name && folder + name in docs
    {
      if name in names {
        var path :| path in docs && InFolder(folder, path) && path[|folder|..] == name;
        InFolderSplit(folder, path);
      }
      if '/' !in name && folder + name in docs {
        InFolderJoin(folder, name);
      }
    }
  }

  /** The part of a path before its first `/`. */
  function FirstSegment(path: string): (segment: string) {
    if path == [] || path[0] == '/' then [] else [path[0]] + FirstSegment(path[1..])
  }

  /** The client's `getListing('/')`: the names at the top of the tree, each once. */
  function TopLevelNames(docs: Documents): (names: set<string>) {
    set path | path in docs :: FirstSegment(path)
  }

  /** `store` writes at the normalised card's own group and `@id`: the caller's when they
      are truthy, "default" and the date otherwise. */
  lemma StoragePathOfNormalized(card: Flashcard, date: string)
    ensures var n := Normalize(card, date);
      && n.group.Some? && n.id.Some?
      && StoragePath(n) == PathOf(n.group.value, n.id.value)
      && StoragePath(n) == PathOf(if TruthyText(card.group) then card.group.value else DEFAULT_GROUP,
                                  if TruthyText(card.id) then card.id.value else date)
  {
  }

  /** Reading back at the card's group and id right after `store` gives the normalised card. */
  lemma StoreThenGet(docs: Documents, card: Flashcard, date: string)
    ensures var n := Normalize(card, date);
      Lookup(docs[StoragePath(n) := n], PathOf(n.group.value, n.id.value)) == Some(n)
  {
  }

  /** `store` leaves every other path as it was. */
  lemma StoreKeepsOthers(docs: Documents, card: Flashcard, date: string, path: string)
    requires path != StoragePath(Normalize(card, date))
    ensures var n := Normalize(card, date); Lookup(docs[StoragePath(n) := n], path) == Lookup(docs, path)
  {
  }

  /** After `remove(group, id)`, `get(group, id)` finds nothing, and other paths are untouched. */
  lemma RemoveThenGet(docs: Documents, group: string, id: string, other: string)
    ensures Lookup(docs - {PathOf(group, id)}, PathOf(group, id)) == None
    ensures other != PathOf(group, id) ==> Lookup(docs - {PathOf(group, id)}, other) == Lookup(docs, other)
  {
  }

  /** A falsy group makes `getAllByGroup` read under "default/"; a truthy one under its own folder. */
  lemma GroupFolderDefault(group: Option<string>)
    ensures !TruthyText(group) ==> GroupFolder(group) == "default/"
    ensures TruthyText(group) ==> GroupFolder(group) == group.value + "/"
  {
  }

  /** Paths of groups without a `/` determine their group and id. */
  lemma PathInjective(g1: string, id1: string, g2: string, id2: string)
    requires '/' !in g1 && '/' !in g2
    requires PathOf(g1, id1) == PathOf(g2, id2)
    ensures g1 == g2 && id1 == id2
  {
    FirstSegmentOfPath(g1, id1);
    FirstSegmentOfPath(g2, id2);
    assert PathOf(g2, id2)[|g2| + 1..] == id2;
  }

  /** A `/` inside a group lets two different cards share a path: nothing checks for it. */
  lemma PathCollision()
    ensures PathOf("a/b", "c") == PathOf("a", "b/c")
  {
  }

  /** The first segment of `group/rest` is the group when the group holds no `/`. */
  lemma {:induction false} FirstSegmentOfPath(group: string, rest: string)
    requires '/' !in group
    ensures FirstSegment(PathOf(group, rest)) == group
  {
    if group != [] {
      assert PathOf(group, rest)[1..] == PathOf(group[1..], rest);
      FirstSegmentOfPath(group[1..], rest);
    }
  }

  /** After `store`, `listGroups` names the card's group (if it holds no `/`), and no group
      listed before is lost. */
  lemma StoreThenListGroups(docs: Documents, card: Flashcard, date: string)
    ensures var n := Normalize(card, date);
      && TopLevelNames(docs) <= TopLevelNames(docs[StoragePath(n) := n])
      && ('/' !in n.group.value ==> n.group.value in TopLevelNames(docs[StoragePath(n) := n]))
  {
    var n := Normalize(card, date);
    if '/' !in n.group.value {
      FirstSegmentOfPath(n.group.value, n.id.value);
    }
  }

  /** After `store`, `getAllByGroup` of the card's group holds the normalised card under its id
      (an id without `/`). */
  lemma StoreThenGetAllByGroup(docs: Documents, card: Flashcard, date: string)
    requires '/' !in Normalize(card, date).id.value
    ensures var n := Normalize(card, date);
      var items := ItemsIn(docs[StoragePath(n) := n], GroupFolder(n.group));
      n.id.value in items && items[n.id.value] == n
  {
    var n := Normalize(card, date);
    assert GroupFolder(n.group) + n.id.value == StoragePath(n);
  }

  /** Writing a record into another group changes nothing `getAllByGroup` reports for this one. */
  lemma GetAllByGroupIgnoresOtherGroups(docs: Documents, group: string, other: string, id: string, card: Flashcard)
    requires '/' !in group && '/' !in other && group != other
    ensures ItemsIn(docs[PathOf(other, id) := card], group + "/") == ItemsIn(docs, group + "/")
  {
    var before, after := ItemsIn(docs, group + "/"), ItemsIn(docs[PathOf(other, id) := card], group + "/");
    forall name | '/' !in name
      ensures group + "/" + name != PathOf(other, id)
    {
      assert group + "/" + name == PathOf(group, name);
      if PathOf(group, name) == PathOf(other, id) {
        PathInjective(group, name, other, id);
      }
    }
    assert before.Keys == after.Keys;
  }

  /** Two cards without an `@id` stored in the same group within the same second land on the
      same path: the second write replaces the first. */
  lemma SameSecondCollision(c1: Flashcard, c2: Flashcard, date: string)
    requires !TruthyText(c1.id) && !TruthyText(c2.id)
    requires TextOr(c1.group, DEFAULT_GROUP) == TextOr(c2.group, DEFAULT_GROUP)
    ensures StoragePath(Normalize(c1, date)) == StoragePath(Normalize(c2, date))
  {
  }

  /** Storing the stored record again: it goes to the same path, keeps `createdAt` and every
      other field, carries the later date in `updatedAt`, and timestamps taken in order sort
      in order. */
  lemma StoreTwice(docs: Documents, card: Flashcard, first: UtcDate, later: UtcDate)
    ensures var n1 := Normalize(card, FormattedDate(first));
      var n2 := Normalize(n1, FormattedDate(later));
      && StoragePath(n2) == StoragePath(n1)
      && n2 == n1.(updatedAt := Some(FormattedDate(later)))
      && n2.createdAt == n1.createdAt
      && docs[StoragePath(n1) := n1][StoragePath(n2) := n2] == docs[StoragePath(n1) := n2]
    ensures ValidDate(first) && FourDigitYear(first) && ValidDate(later) && FourDigitYear(later) && DateBefore(first, later)
      ==> LexLess(Normalize(card, FormattedDate(first)).updatedAt.value,
                  Normalize(Normalize(card, FormattedDate(first)), FormattedDate(later)).updatedAt.value)
  {
    FormattedDateNotEmpty(first);
    NormalizeRestamp(card, FormattedDate(first), FormattedDate(later));
    if ValidDate(first) && FourDigitYear(first) && ValidDate(later) && FourDigitYear(later) {
      FormattedDateOrder(first, later);
    }
  }

  /** The facade the module exports, holding the client's documents. */
  class FlashcardStore {
    var documents: Documents

    /** The module is built around the client it is handed. */
    constructor (client: Documents)
      ensures documents == client
    {
      documents := client;
    }

    /** `store`: normalise the card with the current date, write it at its path and
        return what reading that path gives back. */
    method Store(card: Flashcard, now: UtcDate) returns (stored: Option<Flashcard>)
      modifies this
      ensures documents == old(documents)[StoragePath(Normalize(card, FormattedDate(now))) := Normalize(card, FormattedDate(now))]
      ensures stored == Some(Normalize(card, FormattedDate(now)))
    {
      var date := FormattedDate(now);
      var updated := Normalize(card, date);
      documents := documents[StoragePath(updated) := updated];
      stored := Get(updated.group.value, updated.id.value);
    }

    /** `remove(group, id)`: delete the document at `group/id`; a missing one is no error. */
    method Remove(group: string, id: string)
      modifies this
      ensures documents == old(documents) - {PathOf(group, id)}
    {
      documents := documents - {PathOf(group, id)};
    }

    /** `get(group, id)`: the record at `group/id`, or none. */
    method Get(group: string, id: string) returns (card: Option<Flashcard>)
      ensures card == Lookup(documents, PathOf(group, id))
      ensures card.Some? <==> PathOf(group, id) in documents
      ensures card.Some? ==> card.value == documents[PathOf(group, id)]
    {
      var path := PathOf(group, id);
      if path in documents {
        card := Some(documents[path]);
      } else {
        card := None;
      }
    }

    /** `listGroups()`: the names at the top of the client's tree. */
    method ListGroups() returns (groups: set<string>)
      ensures forall g :: g in groups <==> exists path :: path in documents && FirstSegment(path) == g
    {
      groups := TopLevelNames(documents);
    }

    /** `getAllByGroup(group)`: every record directly inside the group's folder, by id; a
        falsy group reads the "default" folder. */
    method GetAllByGroup(group: Option<string>) returns (cards: map<string, Flashcard>)
      ensures forall id :: id in cards <==> '/' !in id && GroupFolder(group) + id in documents
      ensures forall id :: id in cards ==> cards[id] == documents[GroupFolder(group) + id]
    {
      cards := ItemsIn(documents, GroupFolder(group));
    }
  }

  /** A card with only a front text stored in "spanish" is found by `getAllByGroup` under the
      date as its id, with that date as `createdAt`; once removed, `get` finds nothing. */
  method SpanishScenario(now: UtcDate) returns (listed: map<string, Flashcard>, afterRemove: Option<Flashcard>)
    ensures FormattedDate(now) in listed
    ensures listed[FormattedDate(now)].id == Some(FormattedDate(now))
    ensures listed[FormattedDate(now)].group == Some("spanish")
    ensures listed[FormattedDate(now)].frontText == Some("Hola")
    ensures listed[FormattedDate(now)].createdAt == Some(FormattedDate(now))
    ensures afterRemove == None
  {
    var store := new FlashcardStore(map[]);
    var card := Flashcard(None, None, Some("Hola"), None, None, None, None, Some("spanish"), None, None, None);
    var stored := store.Store(card, now);
    var id := stored.value.id.value;
    FormattedDateHasNoSlash(now);
    assert GroupFolder(Some("spanish")) + id == StoragePath(stored.value);
    listed := store.GetAllByGroup(Some("spanish"));
    store.Remove("spanish", id);
    afterRemove := store.Get("spanish", id);
  }
}
