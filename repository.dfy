/**
 * The repository: a stateless pass-through over the data-access object. It
 * holds nothing but its reference to the DAO, so every effect below is the
 * DAO's effect.
 */
module Repository {
  import opened Entity
  import opened Dao

  class CharacterRepository {
    const characterDao: CharacterDao

    constructor (dao: CharacterDao)
      ensures characterDao == dao
    {
      characterDao := dao;
    }

    /** The observed feed: always the current contents of the table, in no particular order. */
    function CharactersFlow(): (r: seq<CharacterEntity>)
      reads characterDao
      ensures multiset(r) == multiset(characterDao.rows)
    {
      characterDao.GetAllCharactersFlow()
    }

    /** The same effect on the table as the DAO insert; the assigned keys are discarded. */
    method InsertCharacters(es: seq<CharacterEntity>)
      requires characterDao.Valid()
      modifies characterDao
      ensures characterDao.Valid()
      ensures characterDao.State() == InsertAll(old(characterDao.State()), es).table
    {
      var _ := characterDao.InsertCharacters(es);
    }

    /** Exactly the DAO's read-all; the table is not changed. */
    method GetAllCharacters() returns (r: seq<CharacterEntity>)
      ensures multiset(r) == multiset(characterDao.rows)
    {
      r := characterDao.GetAllCharacters();
    }

    /** Empties the table; the key counter is kept. */
    method ClearCharacters()
      requires characterDao.Valid()
      modifies characterDao
      ensures characterDao.Valid()
      ensures characterDao.rows == [] && characterDao.nextId == old(characterDao.nextId)
    {
      characterDao.ClearCharacters();
    }
  }
}
