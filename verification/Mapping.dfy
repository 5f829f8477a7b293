/** Two-way id tables between a game and the generic names, built together from one list of entries. */
module Mapping {
  import opened Bytes

  type GameType = string

  /** One record of a mapping file; a missing or empty id makes it count for nothing. */
  datatype Entry = Entry(gameId: Option<string>, genericId: Option<string>) {
    predicate Usable() {
      gameId.Some? && gameId.value != "" && genericId.Some? && genericId.value != ""
    }
  }

  /** The table from game ids to generic ids after reading the entries in order. */
  function ToGeneric(es: seq<Entry>): map<string, string> {
    if es == [] then map[]
    else
      var e, before := es[|es| - 1], ToGeneric(es[..|es| - 1]);
      if e.Usable() then before[e.gameId.value := e.genericId.value] else before
  }

  function FromGeneric(es: seq<Entry>): map<string, string> {
    if es == [] then map[]
    else
      var e, before := es[|es| - 1], FromGeneric(es[..|es| - 1]);
      if e.Usable() then before[e.genericId.value := e.gameId.value] else before
  }

  function Lookup(tables: map<GameType, map<string, string>>, game: GameType, id: string): Option<string> {
    if game in tables && id in tables[game] then Some(tables[game][id]) else None
  }

  /** What becomes of the item entries: the first usable one is stored, and the name after it is undefined. */
  function FirstUsable(es: seq<Entry>): map<string, string> {
    if es == [] then map[]
    else if es[0].Usable() then map[es[0].gameId.value := es[0].genericId.value]
    else FirstUsable(es[1..])
  }

  /** The entry has a game id and a generic id, neither of them empty. */
  ghost predicate BothIds(e: Entry) {
    exists g, x :: e == Entry(Some(g), Some(x)) && g != "" && x != ""
  }

  /** The two tables of one kind, for every game. */
  datatype Tables = Tables(forward: map<GameType, map<string, string>>, reverse: map<GameType, map<string, string>>)

  datatype Mappings = Mappings(entities: Tables, blocks: Tables, items: Tables)

  const NOTHING := Tables(map[], map[])

  /** One call of `load_mappings` with what the three files hold; None is a file that does not exist. */
  datatype Load = Load(
    game: GameType, entities: Option<seq<Entry>>, blocks: Option<seq<Entry>>, items: Option<seq<Entry>>)

  function Replaced(t: Tables, game: GameType, file: Option<seq<Entry>>): Tables {
    match file
    case None => t
    case Some(es) => Tables(t.forward[game := ToGeneric(es)], t.reverse[game := FromGeneric(es)])
  }

  function ItemsReplaced(t: Tables, game: GameType, file: Option<seq<Entry>>): Tables {
    match file
    case None => t
    case Some(es) => Tables(t.forward[game := FirstUsable(es)], t.reverse[game := map[]])
  }

  function Loaded(m: Mappings, l: Load): Mappings {
    Mappings(Replaced(m.entities, l.game, l.entities), Replaced(m.blocks, l.game, l.blocks),
             ItemsReplaced(m.items, l.game, l.items))
  }

  class MappingManager {
    var entityMappings: map<GameType, map<string, string>>
    var entityReverse: map<GameType, map<string, string>>
    var blockMappings: map<GameType, map<string, string>>
    var blockReverse: map<GameType, map<string, string>>
    var itemMappings: map<GameType, map<string, string>>
    var itemReverse: map<GameType, map<string, string>>

    constructor ()
      ensures View() == Mappings(NOTHING, NOTHING, NOTHING)
    {
      entityMappings, entityReverse, blockMappings, blockReverse := map[], map[], map[], map[];
      itemMappings, itemReverse := map[], map[];
    }

    ghost function View(): Mappings
      reads this
    {
      Mappings(Tables(entityMappings, entityReverse), Tables(blockMappings, blockReverse),
               Tables(itemMappings, itemReverse))
    }

    /** Raises, once entities and blocks are in, exactly if the item file has a usable entry. */
    method LoadMappings(game: GameType, entities: Option<seq<Entry>>, blocks: Option<seq<Entry>>,
                        items: Option<seq<Entry>>)
      returns (raised: bool)
      modifies this
      ensures View() == Loaded(old(View()), Load(game, entities, blocks, items))
      ensures raised <==> items.Some? && exists i :: 0 <= i < |items.value| && BothIds(items.value[i])
    {
      raised := false;
      if entities.Some? {
        var forward, reverse := ReadEntries(entities.value);
        entityMappings, entityReverse := entityMappings[game := forward], entityReverse[game := reverse];
      }
      if blocks.Some? {
        var forward, reverse := ReadEntries(blocks.value);
        blockMappings, blockReverse := blockMappings[game := forward], blockReverse[game := reverse];
      }
      if items.Some? {
        raised := LoadItems(game, items.value);
      }
    }

    method LoadItems(game: GameType, es: seq<Entry>) returns (raised: bool)
      modifies `itemMappings, `itemReverse
      ensures itemMappings == old(itemMappings)[game := FirstUsable(es)]
      ensures itemReverse == old(itemReverse)[game := map[]]
      ensures raised <==> exists i :: 0 <= i < |es| && BothIds(es[i])
    {
      itemMappings, itemReverse := itemMappings[game := map[]], itemReverse[game := map[]];
      for i := 0 to |es|
        invariant forall j :: 0 <= j < i ==> !BothIds(es[j])
        invariant FirstUsable(es) == FirstUsable(es[i..])
        invariant itemMappings == old(itemMappings)[game := map[]] && itemReverse == old(itemReverse)[game := map[]]
      {
        assert es[i..][1..] == es[i + 1..];
        if es[i].Usable() {
          itemMappings := itemMappings[game := itemMappings[game][es[i].gameId.value := es[i].genericId.value]];
          return true;
        }
      }
      return false;
    }

    method ToGenericEntity(game: GameType, id: string) returns (r: Option<string>)
      ensures r == Lookup(View().entities.forward, game, id)
    {
      r := if game in entityMappings && id in entityMappings[game] then Some(entityMappings[game][id]) else None;
    }

    method FromGenericEntity(game: GameType, id: string) returns (r: Option<string>)
      ensures r == Lookup(View().entities.reverse, game, id)
    {
      r := if game in entityReverse && id in entityReverse[game] then Some(entityReverse[game][id]) else None;
    }

    method ToGenericBlock(game: GameType, id: string) returns (r: Option<string>)
      ensures r == Lookup(View().blocks.forward, game, id)
    {
      r := if game in blockMappings && id in blockMappings[game] then Some(blockMappings[game][id]) else None;
    }

    method FromGenericBlock(game: GameType, id: string) returns (r: Option<string>)
      ensures r == Lookup(View().blocks.reverse, game, id)
    {
      r := if game in blockReverse && id in blockReverse[game] then Some(blockReverse[game][id]) else None;
    }

    method ToGenericItem(game: GameType, id: string) returns (r: Option<string>)
      ensures r == Lookup(View().items.forward, game, id)
    {
      r := if game in itemMappings && id in itemMappings[game] then Some(itemMappings[game][id]) else None;
    }

    method FromGenericItem(game: GameType, id: string) returns (r: Option<string>)
      ensures r == Lookup(View().items.reverse, game, id)
    {
      r := if game in itemReverse && id in itemReverse[game] then Some(itemReverse[game][id]) else None;
    }
  }

  /** The loop both kinds of file go through: the two tables grow side by side. */
  method ReadEntries(es: seq<Entry>) returns (forward: map<string, string>, reverse: map<string, string>)
    ensures forward == ToGeneric(es) && reverse == FromGeneric(es)
  {
    forward, reverse := map[], map[];
    for i := 0 to |es|
      invariant forward == ToGeneric(es[..i]) && reverse == FromGeneric(es[..i])
    {
      assert es[..i + 1][..i] == es[..i];
      if es[i].Usable() {
        forward := forward[es[i].gameId.value := es[i].genericId.value];
        reverse := reverse[es[i].genericId.value := es[i].gameId.value];
      }
    }
    assert es[..|es|] == es;
  }

  // ---------------------------------------------------------------- the last entry wins

  /** Entry i is usable, and no usable entry after it has the same game id. */
  ghost predicate LastForGame(es: seq<Entry>, i: int) {
    && 0 <= i < |es| && es[i].Usable()
    && forall j :: i < j < |es| && es[j].Usable() ==> es[j].gameId != es[i].gameId
  }

  ghost predicate LastForGeneric(es: seq<Entry>, i: int) {
    && 0 <= i < |es| && es[i].Usable()
    && forall j :: i < j < |es| && es[j].Usable() ==> es[j].genericId != es[i].genericId
  }

  lemma {:induction false} GameValue(es: seq<Entry>, i: int)
    requires LastForGame(es, i)
    ensures es[i].gameId.value in ToGeneric(es) && ToGeneric(es)[es[i].gameId.value] == es[i].genericId.value
  {
    var init, n := es[..|es| - 1], |es| - 1;
    if i < n {
      assert LastForGame(init, i);
      GameValue(init, i);
    }
  }

  lemma {:induction false} GameEntry(es: seq<Entry>, id: string) returns (i: int)
    requires id in ToGeneric(es)
    ensures LastForGame(es, i) && es[i].gameId == Some(id)
  {
    i := |es| - 1;
    if !(es[i].Usable() && es[i].gameId == Some(id)) {
      i := GameEntry(es[..|es| - 1], id);
    }
  }

  lemma {:induction false} GenericValue(es: seq<Entry>, i: int)
    requires LastForGeneric(es, i)
    ensures es[i].genericId.value in FromGeneric(es) && FromGeneric(es)[es[i].genericId.value] == es[i].gameId.value
  {
    var init, n := es[..|es| - 1], |es| - 1;
    if i < n {
      assert LastForGeneric(init, i);
      GenericValue(init, i);
    }
  }

  lemma {:induction false} GenericEntry(es: seq<Entry>, id: string) returns (i: int)
    requires id in FromGeneric(es)
    ensures LastForGeneric(es, i) && es[i].genericId == Some(id)
  {
    i := |es| - 1;
    if !(es[i].Usable() && es[i].genericId == Some(id)) {
      i := GenericEntry(es[..|es| - 1], id);
    }
  }

  /** The last usable entry for an id decides its translation, in either table, and nothing else is in them. */
  lemma LastEntryWins(es: seq<Entry>)
    ensures forall i :: LastForGame(es, i) ==>
              es[i].gameId.value in ToGeneric(es) && ToGeneric(es)[es[i].gameId.value] == es[i].genericId.value
    ensures forall id :: id in ToGeneric(es) ==> exists i :: LastForGame(es, i) && es[i].gameId == Some(id)
    ensures forall i :: LastForGeneric(es, i) ==>
              es[i].genericId.value in FromGeneric(es) && FromGeneric(es)[es[i].genericId.value] == es[i].gameId.value
    ensures forall id :: id in FromGeneric(es) ==> exists i :: LastForGeneric(es, i) && es[i].genericId == Some(id)
  {
    forall i | LastForGame(es, i)
      ensures es[i].gameId.value in ToGeneric(es) && ToGeneric(es)[es[i].gameId.value] == es[i].genericId.value
    {
      GameValue(es, i);
    }
    forall i | LastForGeneric(es, i)
      ensures es[i].genericId.value in FromGeneric(es) && FromGeneric(es)[es[i].genericId.value] == es[i].gameId.value
    {
      GenericValue(es, i);
    }
    forall id | id in ToGeneric(es) ensures exists i :: LastForGame(es, i) && es[i].gameId == Some(id) {
      var i := GameEntry(es, id);
    }
    forall id | id in FromGeneric(es) ensures exists i :: LastForGeneric(es, i) && es[i].genericId == Some(id) {
      var i := GenericEntry(es, id);
    }
  }

  // ---------------------------------------------------------------- going there and back

  /** `g` takes back every value that `f` gives. */
  ghost predicate Undoes(g: map<string, string>, f: map<string, string>) {
    forall x :: x in f ==> f[x] in g && g[f[x]] == x
  }

  /**
   * Translating a generic id to the game and back gives it again, for all ids of the table, exactly when
   * every entry that is the last for its generic id is also the last for its game id.
   */
  lemma GenericRoundTripExactly(es: seq<Entry>)
    ensures Undoes(ToGeneric(es), FromGeneric(es)) <==> forall i :: LastForGeneric(es, i) ==> LastForGame(es, i)
  {
    LastEntryWins(es);
    var f, r := ToGeneric(es), FromGeneric(es);
    if Undoes(f, r) {
      forall i | LastForGeneric(es, i) ensures LastForGame(es, i) {
        var game, generic := es[i].gameId.value, es[i].genericId.value;
        assert f[r[generic]] == generic;
        var k :| LastForGame(es, k) && es[k].gameId == Some(game);
        SamePlace(es, i, k);
      }
    }
    if forall i :: LastForGeneric(es, i) ==> LastForGame(es, i) {
      forall x | x in r ensures r[x] in f && f[r[x]] == x {
        var i :| LastForGeneric(es, i) && es[i].genericId == Some(x);
        assert LastForGame(es, i);
      }
    }
  }

  lemma GameRoundTripExactly(es: seq<Entry>)
    ensures Undoes(FromGeneric(es), ToGeneric(es)) <==> forall i :: LastForGame(es, i) ==> LastForGeneric(es, i)
  {
    LastEntryWins(es);
    var f, r := ToGeneric(es), FromGeneric(es);
    if Undoes(r, f) {
      forall i | LastForGame(es, i) ensures LastForGeneric(es, i) {
        var game, generic := es[i].gameId.value, es[i].genericId.value;
        assert r[f[game]] == game;
        var k :| LastForGeneric(es, k) && es[k].genericId == Some(generic);
        SamePlace(es, k, i);
      }
    }
    if forall i :: LastForGame(es, i) ==> LastForGeneric(es, i) {
      forall x | x in f ensures f[x] in r && r[f[x]] == x {
        var i :| LastForGame(es, i) && es[i].gameId == Some(x);
        assert LastForGeneric(es, i);
      }
    }
  }

  /** The last entry for a generic id and the last for a game id are one if they say the same. */
  lemma SamePlace(es: seq<Entry>, i: int, k: int)
    requires LastForGeneric(es, i) && LastForGame(es, k)
    requires es[i] == es[k]
    ensures i == k
  {
  }

  /** Distinct game ids are enough for one direction, distinct generic ids for the other. */
  lemma DistinctIdsRoundTrip(es: seq<Entry>)
    ensures (forall i, j :: 0 <= i < j < |es| && es[i].Usable() && es[j].Usable() ==> es[i].gameId != es[j].gameId) ==>
              Undoes(ToGeneric(es), FromGeneric(es))
    ensures (forall i, j :: 0 <= i < j < |es| && es[i].Usable() && es[j].Usable() ==>
               es[i].genericId != es[j].genericId) ==>
              Undoes(FromGeneric(es), ToGeneric(es))
  {
    GenericRoundTripExactly(es);
    GameRoundTripExactly(es);
  }

  // ---------------------------------------------------------------- over any sequence of loads

  function LoadAll(ls: seq<Load>): Mappings {
    if ls == [] then Mappings(NOTHING, NOTHING, NOTHING) else Loaded(LoadAll(ls[..|ls| - 1]), ls[|ls| - 1])
  }

  datatype Kind = Entities | Blocks

  function FileOf(l: Load, kind: Kind): Option<seq<Entry>> {
    match kind case Entities => l.entities case Blocks => l.blocks
  }

  function TablesOf(m: Mappings, kind: Kind): Tables {
    match kind case Entities => m.entities case Blocks => m.blocks
  }

  /** Load k found a file of this kind for the game, and no later load did. */
  ghost predicate LastLoad(ls: seq<Load>, game: GameType, kind: Kind, k: int) {
    && 0 <= k < |ls| && ls[k].game == game && FileOf(ls[k], kind).Some?
    && forall j :: k < j < |ls| && ls[j].game == game ==> FileOf(ls[j], kind).None?
  }

  /** A game's tables are those of its last file; without a file there are none. */
  lemma {:induction false} TablesOverRuns(ls: seq<Load>, game: GameType, kind: Kind)
    ensures var t := TablesOf(LoadAll(ls), kind);
            && (forall k :: LastLoad(ls, game, kind, k) ==>
                  && game in t.forward && t.forward[game] == ToGeneric(FileOf(ls[k], kind).value)
                  && game in t.reverse && t.reverse[game] == FromGeneric(FileOf(ls[k], kind).value))
            && ((forall k :: !LastLoad(ls, game, kind, k)) ==> game !in t.forward && game !in t.reverse)
  {
    if ls != [] {
      var init, n := ls[..|ls| - 1], |ls| - 1;
      TablesOverRuns(init, game, kind);
      if ls[n].game == game && FileOf(ls[n], kind).Some? {
        assert LastLoad(ls, game, kind, n);
      } else {
        assert forall k :: LastLoad(init, game, kind, k) <==> LastLoad(ls, game, kind, k);
      }
    }
  }

  /**
   * What a lookup answers after any loads, in either direction: the last usable entry for the id in the last
   * file of that game and kind, or None if there is none. Loads for other games do not matter.
   */
  lemma LookupsExactly(ls: seq<Load>, game: GameType, kind: Kind, id: string, found: string)
    ensures var t := TablesOf(LoadAll(ls), kind);
            && (Lookup(t.forward, game, id) == Some(found) <==>
                exists k, i :: LastLoad(ls, game, kind, k) && LastForGame(FileOf(ls[k], kind).value, i) &&
                               FileOf(ls[k], kind).value[i] == Entry(Some(id), Some(found)))
            && (Lookup(t.reverse, game, id) == Some(found) <==>
                exists k, i :: LastLoad(ls, game, kind, k) && LastForGeneric(FileOf(ls[k], kind).value, i) &&
                               FileOf(ls[k], kind).value[i] == Entry(Some(found), Some(id)))
  {
    TablesOverRuns(ls, game, kind);
    if k :| LastLoad(ls, game, kind, k) {
      assert forall j :: LastLoad(ls, game, kind, j) ==> j == k;
      TablesHold(FileOf(ls[k], kind).value, id, found);
    }
  }

  lemma TablesHold(es: seq<Entry>, id: string, found: string)
    ensures id in ToGeneric(es) && ToGeneric(es)[id] == found <==>
            exists i :: LastForGame(es, i) && es[i] == Entry(Some(id), Some(found))
    ensures id in FromGeneric(es) && FromGeneric(es)[id] == found <==>
            exists i :: LastForGeneric(es, i) && es[i] == Entry(Some(found), Some(id))
  {
    LastEntryWins(es);
  }

  /** Entry i says that g and x are each other's, and no later entry for g has a generic id. */
  ghost predicate LastWordOnGame(es: seq<Entry>, i: int, g: string, x: string) {
    && 0 <= i < |es| && es[i] == Entry(Some(g), Some(x)) && g != "" && x != ""
    && forall j :: i < j < |es| && es[j].gameId == Some(g) ==> es[j].genericId == None || es[j].genericId == Some("")
  }

  ghost predicate LastWordOnGeneric(es: seq<Entry>, i: int, g: string, x: string) {
    && 0 <= i < |es| && es[i] == Entry(Some(g), Some(x)) && g != "" && x != ""
    && forall j :: i < j < |es| && es[j].genericId == Some(x) ==> es[j].gameId == None || es[j].gameId == Some("")
  }

  /**
   * After any loads, g translates to x, in either direction, exactly if the last file of that game and kind has the
   * entry (g, x), both ids given and not empty, with no later entry for the same id whose other id is given and not
   * empty. So nothing translates to or from an empty id.
   */
  lemma TranslatesExactly(ls: seq<Load>, game: GameType, kind: Kind, g: string, x: string)
    ensures var t := TablesOf(LoadAll(ls), kind);
            && (Lookup(t.forward, game, g) == Some(x) <==>
                exists k, i :: LastLoad(ls, game, kind, k) && LastWordOnGame(FileOf(ls[k], kind).value, i, g, x))
            && (Lookup(t.reverse, game, x) == Some(g) <==>
                exists k, i :: LastLoad(ls, game, kind, k) && LastWordOnGeneric(FileOf(ls[k], kind).value, i, g, x))
  {
    LookupsExactly(ls, game, kind, g, x);
    LookupsExactly(ls, game, kind, x, g);
    forall es: seq<Entry>, i
      ensures LastWordOnGame(es, i, g, x) <==> LastForGame(es, i) && es[i] == Entry(Some(g), Some(x))
      ensures LastWordOnGeneric(es, i, g, x) <==> LastForGeneric(es, i) && es[i] == Entry(Some(g), Some(x))
    {
      WordIsLast(es, i, g, x);
    }
  }

  lemma WordIsLast(es: seq<Entry>, i: int, g: string, x: string)
    ensures LastWordOnGame(es, i, g, x) <==> LastForGame(es, i) && es[i] == Entry(Some(g), Some(x))
    ensures LastWordOnGeneric(es, i, g, x) <==> LastForGeneric(es, i) && es[i] == Entry(Some(g), Some(x))
  {
  }

  /** Every known id survives the two lookups, there and back. */
  ghost predicate ComesBack(there: map<GameType, map<string, string>>, back: map<GameType, map<string, string>>,
                            game: GameType)
  {
    forall id :: Lookup(there, game, id).Some? ==> Lookup(back, game, Lookup(there, game, id).value) == Some(id)
  }

  /** After any loads: both round trips hold for a game exactly when its last file passes the entry condition. */
  lemma LookupRoundTripExactly(ls: seq<Load>, game: GameType, kind: Kind)
    ensures var t := TablesOf(LoadAll(ls), kind);
            && (ComesBack(t.reverse, t.forward, game) <==>
                forall k, i :: LastLoad(ls, game, kind, k) && LastForGeneric(FileOf(ls[k], kind).value, i) ==>
                  LastForGame(FileOf(ls[k], kind).value, i))
            && (ComesBack(t.forward, t.reverse, game) <==>
                forall k, i :: LastLoad(ls, game, kind, k) && LastForGame(FileOf(ls[k], kind).value, i) ==>
                  LastForGeneric(FileOf(ls[k], kind).value, i))
  {
    TablesOverRuns(ls, game, kind);
    if k :| LastLoad(ls, game, kind, k) {
      var es := FileOf(ls[k], kind).value;
      assert forall j :: LastLoad(ls, game, kind, j) ==> j == k;
      UndoesBothWays(TablesOf(LoadAll(ls), kind), game, es);
      GenericRoundTripExactly(es);
      GameRoundTripExactly(es);
    }
  }

  lemma UndoesBothWays(t: Tables, game: GameType, es: seq<Entry>)
    requires game in t.forward && t.forward[game] == ToGeneric(es)
    requires game in t.reverse && t.reverse[game] == FromGeneric(es)
    ensures ComesBack(t.reverse, t.forward, game) <==> Undoes(ToGeneric(es), FromGeneric(es))
    ensures ComesBack(t.forward, t.reverse, game) <==> Undoes(FromGeneric(es), ToGeneric(es))
  {
    forall id ensures Lookup(t.forward, game, id) == if id in ToGeneric(es) then Some(ToGeneric(es)[id]) else None {
    }
    forall id ensures Lookup(t.reverse, game, id) == if id in FromGeneric(es) then Some(FromGeneric(es)[id]) else None {
    }
  }

  /** Items cannot be used: after any loads nothing translates back, and at most one item per game translates at all. */
  lemma ItemsNeverBack(ls: seq<Load>, game: GameType)
    ensures var t := LoadAll(ls).items;
            && (forall id :: Lookup(t.reverse, game, id) == None)
            && (forall x, y :: Lookup(t.forward, game, x).Some? && Lookup(t.forward, game, y).Some? ==> x == y)
  {
    ItemTables(ls, game);
  }

  lemma {:induction false} ItemTables(ls: seq<Load>, game: GameType)
    ensures var t := LoadAll(ls).items;
            && (game in t.reverse ==> t.reverse[game] == map[])
            && (game in t.forward ==> exists es :: t.forward[game] == FirstUsable(es))
            && forall es, x, y :: x in FirstUsable(es) && y in FirstUsable(es) ==> x == y
  {
    forall es ensures forall x, y :: x in FirstUsable(es) && y in FirstUsable(es) ==> x == y {
      AtMostOne(es);
    }
    if ls != [] {
      ItemTables(ls[..|ls| - 1], game);
    }
  }

  lemma {:induction false} AtMostOne(es: seq<Entry>)
    ensures forall x, y :: x in FirstUsable(es) && y in FirstUsable(es) ==> x == y
  {
    if es != [] && !es[0].Usable() {
      AtMostOne(es[1..]);
    }
  }

  /** Load k found an item file for the game, and no later load did. */
  ghost predicate LastItems(ls: seq<Load>, game: GameType, k: int) {
    && 0 <= k < |ls| && ls[k].game == game && ls[k].items.Some?
    && forall j :: k < j < |ls| && ls[j].game == game ==> ls[j].items.None?
  }

  /** The one item of a game that translates is the first in its last file with both ids. */
  lemma {:induction false} ItemsExactly(ls: seq<Load>, game: GameType, g: string, x: string)
    ensures Lookup(LoadAll(ls).items.forward, game, g) == Some(x) <==>
            exists k :: LastItems(ls, game, k) && FirstWord(ls[k].items.value, g, x)
  {
    if ls != [] {
      var init, n := ls[..|ls| - 1], |ls| - 1;
      ItemsExactly(init, game, g, x);
      if ls[n].game == game && ls[n].items.Some? {
        FirstWordExactly(ls[n].items.value, g, x);
        assert LastItems(ls, game, n);
      } else {
        assert forall k :: LastItems(init, game, k) <==> LastItems(ls, game, k);
      }
    }
  }

  ghost predicate FirstWord(es: seq<Entry>, g: string, x: string) {
    && g != "" && x != ""
    && exists i :: 0 <= i < |es| && es[i] == Entry(Some(g), Some(x)) && forall j :: 0 <= j < i ==> !BothIds(es[j])
  }

  lemma {:induction false} FirstWordExactly(es: seq<Entry>, g: string, x: string)
    ensures g in FirstUsable(es) && FirstUsable(es)[g] == x <==> FirstWord(es, g, x)
  {
    if es != [] {
      if es[0].Usable() {
        assert BothIds(es[0]);
        assert g in map[es[0].gameId.value := es[0].genericId.value] <==> g == es[0].gameId.value;
      } else {
        assert !BothIds(es[0]);
        FirstWordExactly(es[1..], g, x);
        FirstWordCons(es, g, x);
      }
    }
  }

  lemma FirstWordCons(es: seq<Entry>, g: string, x: string)
    requires es != [] && !BothIds(es[0])
    ensures FirstWord(es, g, x) <==> FirstWord(es[1..], g, x)
  {
    var rest := es[1..];
    if FirstWord(es, g, x) {
      var i :| 0 <= i < |es| && es[i] == Entry(Some(g), Some(x)) && forall j :: 0 <= j < i ==> !BothIds(es[j]);
      assert i > 0 && rest[i - 1] == es[i];
      assert forall j :: 0 <= j < i - 1 ==> rest[j] == es[j + 1];
    }
    if FirstWord(rest, g, x) {
      var i :| 0 <= i < |rest| && rest[i] == Entry(Some(g), Some(x)) && forall j :: 0 <= j < i ==> !BothIds(rest[j]);
      assert es[i + 1] == rest[i];
      assert forall j :: 0 < j < i + 1 ==> es[j] == rest[j - 1];
    }
  }
}
