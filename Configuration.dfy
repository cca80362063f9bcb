/** The program's configurable parameters (Includes/Configuration.h). */
module Configuration {

  /** Maximum size of a word to search, the terminating zero included. */
  const WordMaximumStringSize: nat := 32

  /** The grid is never wider or taller than this. */
  const GridMaximumSize: nat := WordMaximumStringSize

  /** How many letters the latin alphabet has, hence how many word lists there are. */
  const AlphabetLettersCount: nat := 26
}
