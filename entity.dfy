/**
 * The row type of the `characters` table: a surrogate key `id` plus the six
 * domain fields of a character.
 */
module Entity {

  /** The key value that means "not stored yet": with auto-generation the store assigns a fresh key. */
  const UnsetId: int := 0

  /** One row; equality of the datatype covers all seven fields, like a data class. */
  datatype CharacterEntity = CharacterEntity(
    id: int,
    name: string,
    culture: string,
    born: string,
    titles: seq<string>,
    aliases: seq<string>,
    playedBy: seq<string>)

  /**
   * Construction with the key left at its default: all six domain fields must be
   * supplied, and the key is the unset value.
   */
  function NewCharacterEntity(
    name: string, culture: string, born: string,
    titles: seq<string>, aliases: seq<string>, playedBy: seq<string>): (e: CharacterEntity)
    ensures e.id == UnsetId
    ensures e.name == name && e.culture == culture && e.born == born
    ensures e.titles == titles && e.aliases == aliases && e.playedBy == playedBy
  {
    CharacterEntity(UnsetId, name, culture, born, titles, aliases, playedBy)
  }

  /** Two rows are domain-duplicates when all six domain fields agree, whatever their keys. */
  predicate SameDomain(a: CharacterEntity, b: CharacterEntity)
  {
    a.name == b.name && a.culture == b.culture && a.born == b.born &&
    a.titles == b.titles && a.aliases == b.aliases && a.playedBy == b.playedBy
  }

  /** Row equality is key equality plus domain equality. */
  lemma EntityEquality(a: CharacterEntity, b: CharacterEntity)
    ensures a == b <==> a.id == b.id && SameDomain(a, b)
  {
  }

  /** Domain-duplicates under different keys are different rows. */
  lemma DistinctKeysDistinctRows(a: CharacterEntity, b: CharacterEntity)
    requires SameDomain(a, b) && a.id != b.id
    ensures a != b
  {
  }
}
