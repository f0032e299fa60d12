/**
 * The domain record `Character` as decoded from the remote catalog.
 * Its class file is not part of this model; its shape is the one every
 * named-argument construction of it uses: three strings and three string lists.
 */
module CharacterModel {

  datatype Character = Character(
    name: string,
    culture: string,
    born: string,
    titles: seq<string>,
    aliases: seq<string>,
    playedBy: seq<string>)
}
