/** The locale table of the Bergfex parser: for each field category, the
    French, English and German label that announces it on a resort page, in
    the order the parser tries them. */
module Labels {

  datatype Category =
    | SnowCondition
    | LastSnowfall
    | AvalancheWarning
    | Lifts
    | Slopes
    | SlopeCondition
    | Mountain
    | Valley
    | SnowHeight

  /** The label variants of a category: French first, then English, then German. */
  function Variants(c: Category): (r: seq<string>)
    ensures |r| == 3
    ensures forall k :: 0 <= k < |r| ==> r[k] != []
  {
    match c
    case SnowCondition => ["État de la neige", "Snow condition", "Schneezustand"]
    case LastSnowfall => ["Dernière chute de neige Région", "Latest snowfall Region", "Letzter Schneefall"]
    case AvalancheWarning => ["Niveau d’alerte avalanches", "Avalanche alert level", "Lawinenwarnstufe"]
    case Lifts => ["Remontées ouvertes", "Open lifts", "Offene Lifte"]
    case Slopes => ["Pistes ouvertes", "Open pistes", "Offene Pisten"]
    case SlopeCondition => ["État de la piste", "Piste conditions", "Pistenzustand"]
    case Mountain => ["Sommet", "Mountain", "Berg"]
    case Valley => ["Vallée", "Valley", "Tal"]
    case SnowHeight => ["Hauteur de neige", "Snow depth", "Schneehöhe"]
  }
}
