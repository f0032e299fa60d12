/**
 * The character list screen backed by the local table: the entity/character
 * mappings and the load and refresh policy that decides when the table is
 * cleared, when the remote catalog is asked for a page, and what is shown.
 *
 * The remote call is not modelled: each operation that may call it takes its
 * outcome as a parameter, and a ghost log `apiRequests` records the page of
 * every call so that "no call was made" can be stated. The list adapter is
 * the field `displayed`; transient messages to the user are the field
 * `notices`. Every handler runs as one sequential step.
 */
module Fragment {
  import opened Wrappers
  import opened CharacterModel
  import opened Entity
  import opened Dao
  import opened Repository

  /** The page the refresh button falls back to when the entered page is missing or not positive. */
  const DefaultPage: int := 10

  /** What the remote catalog delivers for one page request: the decoded characters, or a failure. */
  datatype ApiResult = Ok(characters: seq<Character>) | Err(message: string)

  /** Transient messages shown to the user. */
  datatype Notice = ApiError(message: string) | InvalidPageNumber

  // ---------------------------------------------------------------------------
  // Mappings between rows and characters
  // ---------------------------------------------------------------------------

  /** A row seen as a character: the six domain fields, the key dropped. */
  function ToCharacter(e: CharacterEntity): (c: Character)
  {
    Character(e.name, e.culture, e.born, e.titles, e.aliases, e.playedBy)
  }

  /** A character as a row to be stored: the six domain fields, the key left unset. */
  function ToEntity(c: Character): (e: CharacterEntity)
    ensures e.id == UnsetId && ToCharacter(e) == c
  {
    NewCharacterEntity(c.name, c.culture, c.born, c.titles, c.aliases, c.playedBy)
  }

  /** Rows seen as characters, one for one and in order. */
  function ToCharacters(es: seq<CharacterEntity>): (cs: seq<Character>)
    ensures |cs| == |es|
    ensures forall i :: 0 <= i < |es| ==> cs[i] == ToCharacter(es[i])
  {
    if es == [] then [] else [ToCharacter(es[0])] + ToCharacters(es[1..])
  }

  /** Characters as rows to be stored, one for one and in order: every row has the
      unset key and carries its character's six fields unchanged. */
  function ToEntities(cs: seq<Character>): (es: seq<CharacterEntity>)
    ensures |es| == |cs|
    ensures forall i :: 0 <= i < |cs| ==> es[i].id == UnsetId && ToCharacter(es[i]) == cs[i]
  {
    if cs == [] then [] else [ToEntity(cs[0])] + ToEntities(cs[1..])
  }

  /** Two rows show as the same character exactly when they are domain-duplicates; the key plays no part. */
  lemma ToCharacterDomain(a: CharacterEntity, b: CharacterEntity)
    ensures ToCharacter(a) == ToCharacter(b) <==> SameDomain(a, b)
    ensures ToCharacter(a.(id := b.id)) == ToCharacter(a)
  {
  }

  /** Character to row to character is the identity. */
  lemma CharacterRoundTrip(c: Character)
    ensures ToCharacter(ToEntity(c)) == c
  {
  }

  /** Row to character to row loses the key and nothing else. */
  lemma EntityRoundTrip(e: CharacterEntity)
    ensures ToEntity(ToCharacter(e)) == e.(id := UnsetId)
    ensures SameDomain(ToEntity(ToCharacter(e)), e)
  {
  }

  /** The round trip on whole lists. */
  lemma CharactersRoundTrip(cs: seq<Character>)
    ensures ToCharacters(ToEntities(cs)) == cs
  {
  }

  lemma ToCharactersAppend(a: seq<CharacterEntity>, b: seq<CharacterEntity>)
    ensures ToCharacters(a + b) == ToCharacters(a) + ToCharacters(b)
  {
  }

  /**
   * Mapping rows to characters respects contents: two reads of the same rows in
   * different orders show the same characters, as a multiset.
   */
  lemma {:induction false} ToCharactersPermutation(s: seq<CharacterEntity>, t: seq<CharacterEntity>)
    requires multiset(s) == multiset(t)
    ensures multiset(ToCharacters(s)) == multiset(ToCharacters(t))
    decreases |s|
  {
    if s == [] {
      assert |t| == |multiset(t)| == 0;
    } else {
      var x := s[0];
      assert x in multiset(t);
      var k :| 0 <= k < |t| && t[k] == x;
      var rest := t[..k] + t[k + 1..];
      assert t == t[..k] + [x] + t[k + 1..];
      assert s == [x] + s[1..];
      assert multiset(t) == multiset(t[..k]) + multiset([x]) + multiset(t[k + 1..]);
      assert multiset(rest) == multiset(t[..k]) + multiset(t[k + 1..]);
      assert multiset(s) == multiset([x]) + multiset(s[1..]);
      assert multiset(s[1..]) == multiset(s) - multiset{x};
      assert multiset(rest) == multiset(t) - multiset{x};
      ToCharactersPermutation(s[1..], rest);
      ToCharactersAppend(t[..k] + [x], t[k + 1..]);
      ToCharactersAppend(t[..k], [x]);
      ToCharactersAppend(t[..k], t[k + 1..]);
      ToCharactersAppend([x], s[1..]);
    }
  }

  // ---------------------------------------------------------------------------
  // Page choice and the clear-then-insert composite
  // ---------------------------------------------------------------------------

  /** An entered page is usable when it parsed and is positive. */
  predicate IsValidPage(page: Option<int>)
  {
    page.Some? && page.value > 0
  }

  /** The page the refresh button fetches: always a positive page. */
  function RefreshPage(page: Option<int>): (p: int)
    ensures p > 0
  {
    if IsValidPage(page) then page.value else DefaultPage
  }

  /** The table after a clear followed by a successful insert of the fetched characters:
      exactly those characters, in order, and the counter moved past one new key each. */
  function Refreshed(t: TableState, cs: seq<Character>): (r: TableState)
    ensures |r.rows| == |cs| && ToCharacters(r.rows) == cs
    ensures r.nextId == t.nextId + |cs|
  {
    InsertFetchedIntoEmpty(t.nextId, cs);
    InsertAll(TableState([], t.nextId), ToEntities(cs)).table
  }

  /** Inserting a fetch into an empty table stores the fetched characters, in order,
      under consecutive keys from the counter. */
  lemma InsertFetchedIntoEmpty(n: int, cs: seq<Character>)
    ensures var r := InsertAll(TableState([], n), ToEntities(cs)).table;
      && |r.rows| == |cs|
      && r.nextId == n + |cs|
      && (forall i :: 0 <= i < |cs| ==> r.rows[i].id == n + i && ToCharacter(r.rows[i]) == cs[i])
  {
    var es := ToEntities(cs);
    InsertAllFresh(TableState([], n), es);
    var r := InsertAll(TableState([], n), es).table;
    forall i | 0 <= i < |cs| ensures ToCharacter(r.rows[i]) == cs[i] {
      assert r.rows[0 + i] == es[i].(id := n + i);
      assert ToCharacter(es[i]) == cs[i];
    }
  }

  lemma RefreshedValid(t: TableState, cs: seq<Character>)
    requires ValidTable(t)
    ensures ValidTable(Refreshed(t, cs))
  {
    InsertAllValid(TableState([], t.nextId), ToEntities(cs));
  }

  lemma RefreshedKeysFresh(t: TableState, cs: seq<Character>)
    ensures forall i :: 0 <= i < |Refreshed(t, cs).rows| ==> Refreshed(t, cs).rows[i].id >= t.nextId
  {
    InsertFetchedIntoEmpty(t.nextId, cs);
  }

  /**
   * Clearing and then inserting a fetch replaces the table: it holds exactly the
   * fetched characters, in order, under keys that no earlier row had, so no
   * earlier row remains.
   */
  lemma RefreshReplacesAll(t: TableState, cs: seq<Character>)
    requires ValidTable(t)
    ensures var r := Refreshed(t, cs);
      && ValidTable(r)
      && ToCharacters(r.rows) == cs
      && (forall i, j :: 0 <= i < |r.rows| && 0 <= j < |t.rows| ==> r.rows[i].id != t.rows[j].id)
      && (forall i :: 0 <= i < |r.rows| ==> r.rows[i] !in t.rows)
  {
    var r := Refreshed(t, cs);
    RefreshedValid(t, cs);
    RefreshedKeysFresh(t, cs);
    forall i | 0 <= i < |r.rows| ensures r.rows[i] !in t.rows {
      assert forall j :: 0 <= j < |t.rows| ==> t.rows[j].id < r.rows[i].id;
    }
  }

  /** Two successive successful refreshes with the same fetch show the same records;
      only the keys differ. */
  lemma RefreshIdempotent(t: TableState, cs: seq<Character>)
    requires ValidTable(t)
    ensures ToCharacters(Refreshed(Refreshed(t, cs), cs).rows) == ToCharacters(Refreshed(t, cs).rows) == cs
  {
    RefreshReplacesAll(t, cs);
    RefreshReplacesAll(Refreshed(t, cs), cs);
  }

  // ---------------------------------------------------------------------------
  // The screen
  // ---------------------------------------------------------------------------

  class CharacterFragment {
    const repository: CharacterRepository
    /** What the list adapter currently shows. */
    var displayed: seq<Character>
    /** Messages shown to the user so far, oldest first. */
    var notices: seq<Notice>
    /** The page of every remote request made so far, oldest first. */
    ghost var apiRequests: seq<int>

    ghost predicate Valid()
      reads repository.characterDao
    {
      repository.characterDao.Valid()
    }

    /** The table as a value. */
    function Table(): TableState
      reads repository.characterDao
    {
      repository.characterDao.State()
    }

    /** The screen starts with an empty list, no message and no request made. */
    constructor (repo: CharacterRepository)
      requires repo.characterDao.Valid()
      ensures repository == repo && Valid()
      ensures displayed == [] && notices == [] && apiRequests == []
    {
      repository := repo;
      displayed := [];
      notices := [];
      apiRequests := [];
    }

    /** The feed collector: on each emission the list shows the table's rows as characters. */
    method OnCharactersEmitted()
      modifies this`displayed
      ensures multiset(displayed) == multiset(ToCharacters(Table().rows))
    {
      var rows := repository.CharactersFlow();
      displayed := ToCharacters(rows);
      ToCharactersPermutation(rows, Table().rows);
    }

    /**
     * Fetch one page from the remote catalog. On success every fetched character
     * is inserted as a new row and the list shows exactly the fetched characters;
     * on failure the table and the list are left alone and an error is shown.
     */
    method FetchCharactersFromApi(page: int, remote: ApiResult)
      requires Valid()
      modifies this`displayed, this`notices, this`apiRequests, repository.characterDao
      ensures Valid()
      ensures apiRequests == old(apiRequests) + [page]
      ensures remote.Ok? ==>
        && Table() == InsertAll(old(Table()), ToEntities(remote.characters)).table
        && |Table().rows| == |old(Table()).rows| + |remote.characters|
        && Table().rows[..|old(Table()).rows|] == old(Table()).rows
        && displayed == remote.characters
        && notices == old(notices)
      ensures remote.Err? ==>
        && Table() == old(Table())
        && displayed == old(displayed)
        && notices == old(notices) + [ApiError(remote.message)]
    {
      apiRequests := apiRequests + [page];
      match remote {
        case Ok(characters) =>
          var entities := ToEntities(characters);
          InsertAllFresh(Table(), entities);
          repository.InsertCharacters(entities);
          displayed := characters;
        case Err(message) =>
          notices := notices + [ApiError(message)];
      }
    }

    /**
     * Cache-aside load: a non-empty table is shown as it is, with no remote
     * request; an empty table is filled from the remote catalog for `page`.
     */
    method FetchCharacters(page: int, remote: ApiResult)
      requires Valid()
      modifies this`displayed, this`notices, this`apiRequests, repository.characterDao
      ensures Valid()
      ensures old(Table()).rows != [] ==>
        && Table() == old(Table())
        && apiRequests == old(apiRequests)
        && notices == old(notices)
        && multiset(displayed) == multiset(ToCharacters(old(Table()).rows))
      ensures old(Table()).rows == [] ==>
        && apiRequests == old(apiRequests) + [page]
        && (remote.Ok? ==>
              && Table() == InsertAll(old(Table()), ToEntities(remote.characters)).table
              && ToCharacters(Table().rows) == remote.characters
              && displayed == remote.characters
              && notices == old(notices))
        && (remote.Err? ==>
              && Table() == old(Table())
              && displayed == old(displayed)
              && notices == old(notices) + [ApiError(remote.message)])
    {
      var fromDb := repository.GetAllCharacters();
      if |fromDb| > 0 {
        displayed := ToCharacters(fromDb);
        ToCharactersPermutation(fromDb, Table().rows);
      } else {
        assert Table().rows == [];
        if remote.Ok? {
          RefreshReplacesAll(Table(), remote.characters);
        }
        FetchCharactersFromApi(page, remote);
      }
    }

    /**
     * The refresh button: the table is cleared first, then the entered page is
     * fetched when it is usable, page 10 otherwise. A failed fetch leaves the
     * table empty.
     */
    method OnRefreshClicked(pageText: Option<int>, remote: ApiResult)
      requires Valid()
      modifies this`displayed, this`notices, this`apiRequests, repository.characterDao
      ensures Valid()
      ensures apiRequests == old(apiRequests) + [if IsValidPage(pageText) then pageText.value else DefaultPage]
      ensures remote.Ok? ==>
        && Table() == Refreshed(old(Table()), remote.characters)
        && ToCharacters(Table().rows) == remote.characters
        && (forall i :: 0 <= i < |Table().rows| ==> Table().rows[i] !in old(Table()).rows)
        && displayed == remote.characters
        && notices == old(notices)
      ensures remote.Err? ==>
        && Table() == TableState([], old(Table()).nextId)
        && displayed == old(displayed)
        && notices == old(notices) + [ApiError(remote.message)]
    {
      if remote.Ok? {
        RefreshReplacesAll(Table(), remote.characters);
      }
      repository.ClearCharacters();
      var page := RefreshPage(pageText);
      FetchCharactersFromApi(page, remote);
    }

    /**
     * The load-page button: a missing or non-positive page only shows a message;
     * a usable page clears the table and fetches that page, without consulting
     * the cache.
     */
    method OnLoadPageClicked(pageText: Option<int>, remote: ApiResult)
      requires Valid()
      modifies this`displayed, this`notices, this`apiRequests, repository.characterDao
      ensures Valid()
      ensures !IsValidPage(pageText) ==>
        && Table() == old(Table())
        && displayed == old(displayed)
        && apiRequests == old(apiRequests)
        && notices == old(notices) + [InvalidPageNumber]
      ensures IsValidPage(pageText) ==>
        && apiRequests == old(apiRequests) + [pageText.value]
        && (remote.Ok? ==>
              && Table() == Refreshed(old(Table()), remote.characters)
              && ToCharacters(Table().rows) == remote.characters
              && (forall i :: 0 <= i < |Table().rows| ==> Table().rows[i] !in old(Table()).rows)
              && displayed == remote.characters
              && notices == old(notices))
        && (remote.Err? ==>
              && Table() == TableState([], old(Table()).nextId)
              && displayed == old(displayed)
              && notices == old(notices) + [ApiError(remote.message)])
    {
      if IsValidPage(pageText) {
        if remote.Ok? {
          RefreshReplacesAll(Table(), remote.characters);
        }
        repository.ClearCharacters();
        FetchCharactersFromApi(pageText.value, remote);
      } else {
        notices := notices + [InvalidPageNumber];
      }
    }
  }
}
