/** The fixed suggestion table `musicDatabase`: three candidates per genre,
    each with a name, an artist and a catalog blurb. */
module Catalog {
  import opened Genre

  datatype Suggestion = Suggestion(name: string, artist: string, reason: string)

  /** A table from genre to its candidates. */
  type Database = map<string, seq<Suggestion>>

  const MusicDatabase: Database := map[
    Rock := [
      Suggestion("Bohemian Rhapsody", "Queen", "Clássico do rock"),
      Suggestion("Stairway to Heaven", "Led Zeppelin", "Épico do rock progressivo"),
      Suggestion("Hotel California", "Eagles", "Rock clássico americano")],
    Pop := [
      Suggestion("Blinding Lights", "The Weeknd", "Pop moderno"),
      Suggestion("Watermelon Sugar", "Harry Styles", "Pop contemporâneo"),
      Suggestion("Levitating", "Dua Lipa", "Dance-pop atual")],
    Jazz := [
      Suggestion("Take Five", "Dave Brubeck", "Jazz clássico"),
      Suggestion("So What", "Miles Davis", "Jazz modal"),
      Suggestion("Blue in Green", "Bill Evans", "Jazz contemplativo")],
    Electronic := [
      Suggestion("Strobe", "Deadmau5", "Progressive house"),
      Suggestion("Midnight City", "M83", "Synthwave"),
      Suggestion("One More Time", "Daft Punk", "French house")]
  ]

  /** `musicDatabase[genre] || []`. */
  function Bucket(catalog: Database, genre: string): seq<Suggestion> {
    if genre in catalog then catalog[genre] else []
  }

  /** Every genre the classifier can produce has a bucket of three
      candidates, so the `|| []` fallback is never taken. */
  lemma BucketOfDetectedGenre(name: string, artist: string)
    ensures DetectGenre(name, artist) in MusicDatabase
    ensures |Bucket(MusicDatabase, DetectGenre(name, artist))| == 3
  {
  }
}
