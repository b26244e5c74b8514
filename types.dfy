/** The records of the event directory (types.ts). */
module ExpoTypes {
  import opened Optional

  /** The nine event categories; each variant's string value is its Chinese name. */
  datatype EventType =
    | Forum
    | Lecture
    | Workshop
    | Tour
    | Market
    | Performance
    | Discussion
    | Exhibition
    | Other
  {
    /** The enum's runtime string value (types.ts:2-10). */
    function Value(): (s: string)
      ensures |s| > 0
    {
      match this
      case Forum => "論壇"
      case Lecture => "講座"
      case Workshop => "工作坊"
      case Tour => "導覽/走讀"
      case Market => "市集"
      case Performance => "表演/DJ"
      case Discussion => "市民討論"
      case Exhibition => "展覽/體驗"
      case Other => "其他"
    }
  }

  /** No two categories share a string value, so the raw values alone already
      tell the types apart. */
  lemma ValuesDistinct(a: EventType, b: EventType)
    ensures a.Value() == b.Value() <==> a == b
  {
  }

  /** One event of the directory. `eventType` is the field the source calls `type`. */
  datatype ExpoEvent = ExpoEvent(
    id: string,
    title: string,
    venueGroup: string,
    locationDetail: Option<string>,
    eventType: EventType,
    dateDisplay: string,
    dateSort: string,
    link: Option<string>,
    isFull: Option<bool>,
    tags: Option<seq<string>>,
    description: Option<string>
  )

  /** The four ways the list can be presented. */
  datatype ViewMode = Venue | Date | Type | Calendar

  /** The per-language type-to-label table; an entry may be missing. */
  type TypeLabels = map<EventType, string>
}
