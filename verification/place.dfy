/** A place of the bundled guide (Place.kt): its coordinates with a zero
    default for missing entries, and its language-dependent texts and asset
    paths. `Double` is read as a real number. */
module Places {
  import opened Wrappers

  /** One decoded entry of the place list; the `Option` fields are the
      nullable ones, absent from the JSON when the place has no novel. */
  datatype Place = Place(
    id: string,
    name: string,
    coordinates: seq<real>,
    intro: string,
    introEn: string,
    readUrl: string,
    readUrlEn: string,
    quizUrl: string,
    novelUrl: Option<string>,
    novelUrlEn: Option<string>,
    novelTitle: Option<string>,
    novelTitleEn: Option<string>)
  {
    /** `coordinates.getOrNull(i) ?: 0.0` */
    function Coordinate(i: nat): (c: real)
      ensures i < |coordinates| ==> c == coordinates[i]
      ensures |coordinates| <= i ==> c == 0.0
    {
      if i < |coordinates| then coordinates[i] else 0.0
    }

    function Latitude(): real {
      Coordinate(0)
    }

    function Longitude(): real {
      Coordinate(1)
    }

    /** `displayName`: the name, in both languages. */
    function DisplayName(isVietnamese: bool): string {
      name
    }

    function Intro(isVietnamese: bool): string {
      if isVietnamese then intro else introEn
    }

    function ReadAssetPath(isVietnamese: bool): string {
      if isVietnamese then readUrl else readUrlEn
    }

    function NovelAssetPath(isVietnamese: bool): Option<string> {
      if isVietnamese then novelUrl else novelUrlEn
    }

    function NovelDisplayTitle(isVietnamese: bool): Option<string> {
      if isVietnamese then novelTitle else novelTitleEn
    }
  }

  /** What the screens show of a place in one language. */
  datatype View = View(
    name: string,
    intro: string,
    readPath: string,
    novelPath: Option<string>,
    novelTitle: Option<string>)

  function ViewOf(p: Place, isVietnamese: bool): View {
    View(p.DisplayName(isVietnamese), p.Intro(isVietnamese), p.ReadAssetPath(isVietnamese),
         p.NovelAssetPath(isVietnamese), p.NovelDisplayTitle(isVietnamese))
  }

  /** The map position: the first two coordinates, a missing one read as
      0.0; anything after the second is ignored. */
  lemma PositionFromCoordinates(p: Place)
    ensures |p.coordinates| >= 2 ==> (p.Latitude(), p.Longitude()) == (p.coordinates[0], p.coordinates[1])
    ensures |p.coordinates| == 1 ==> (p.Latitude(), p.Longitude()) == (p.coordinates[0], 0.0)
    ensures |p.coordinates| == 0 ==> (p.Latitude(), p.Longitude()) == (0.0, 0.0)
    ensures forall extra: seq<real> {:trigger p.coordinates + extra} ::
              |p.coordinates| >= 2 ==>
                var q := p.(coordinates := p.coordinates + extra);
                q.Latitude() == p.Latitude() && q.Longitude() == p.Longitude()
  {
  }

  /** The Vietnamese view reads only the Vietnamese fields and the English
      view only the English ones: editing one language's texts leaves the
      other language's screens unchanged. The name is shared. */
  lemma LanguagesIndependent(p: Place, intro: string, readUrl: string, novelUrl: Option<string>,
                             novelTitle: Option<string>)
    ensures ViewOf(p.(introEn := intro, readUrlEn := readUrl, novelUrlEn := novelUrl, novelTitleEn := novelTitle), true)
              == ViewOf(p, true)
    ensures ViewOf(p.(intro := intro, readUrl := readUrl, novelUrl := novelUrl, novelTitle := novelTitle), false)
              == ViewOf(p, false)
    ensures ViewOf(p, true).name == ViewOf(p, false).name == p.name
  {
  }

  /** Each language view is exactly that language's fields. */
  lemma ViewFields(p: Place)
    ensures ViewOf(p, true) == View(p.name, p.intro, p.readUrl, p.novelUrl, p.novelTitle)
    ensures ViewOf(p, false) == View(p.name, p.introEn, p.readUrlEn, p.novelUrlEn, p.novelTitleEn)
  {
  }
}
