/**
 * The catalog side of the pipeline: a release found in the iTunes catalog
 * and its tracks. The search itself is not modelled; a release arrives as
 * values. Only a track's number and a release's track list and count are
 * ever reassigned (by the reconciliation), so those are the only mutable
 * fields.
 */
module Catalog {

  /** The values of a catalog track's fields at one moment. */
  datatype TrackInfo = TrackInfo(artistName: string, censoredName: string, trackNumber: int, trackCount: int)

  /** The values of a release's scalar fields at one moment. */
  datatype ReleaseInfo = ReleaseInfo(artistName: string, censoredName: string, releaseYear: int,
                                     genre: string, copyright: string, trackCount: int)

  /** A catalog track (an `itunespy` result item). */
  class CatalogTrack {
    const artistName: string
    /** The title as the catalog spells it, before the censor dictionary is applied. */
    const censoredName: string
    const trackCount: int
    var trackNumber: int

    constructor (artistName: string, censoredName: string, trackNumber: int, trackCount: int)
      ensures this.artistName == artistName && this.censoredName == censoredName
      ensures this.trackNumber == trackNumber && this.trackCount == trackCount
    {
      this.artistName := artistName;
      this.censoredName := censoredName;
      this.trackNumber := trackNumber;
      this.trackCount := trackCount;
    }

    function Info(): TrackInfo
      reads this
    {
      TrackInfo(artistName, censoredName, trackNumber, trackCount)
    }
  }

  /** A catalog release (an `itunespy` collection). */
  class Collection {
    const artistName: string
    const censoredName: string
    const releaseYear: int
    const genre: string
    const copyright: string
    var tracks: seq<CatalogTrack>
    var trackCount: int

    constructor (artistName: string, censoredName: string, releaseYear: int, genre: string,
                 copyright: string, tracks: seq<CatalogTrack>, trackCount: int)
      ensures this.artistName == artistName && this.censoredName == censoredName
      ensures this.releaseYear == releaseYear && this.genre == genre && this.copyright == copyright
      ensures this.tracks == tracks && this.trackCount == trackCount
    {
      this.artistName := artistName;
      this.censoredName := censoredName;
      this.releaseYear := releaseYear;
      this.genre := genre;
      this.copyright := copyright;
      this.tracks := tracks;
      this.trackCount := trackCount;
    }

    function Info(): ReleaseInfo
      reads this
    {
      ReleaseInfo(artistName, censoredName, releaseYear, genre, copyright, trackCount)
    }
  }
}
