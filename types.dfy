/**
 * The records the mention library passes around: a trigger configuration,
 * the data attached to a mention, a positioned mention and a suggestion
 * offered by the host application.
 */
module Types {
  import opened Wrappers

  /**
   * One trigger configuration. `allowedSpacesCount` is how many extra
   * whitespace-separated word groups a mention name may have (absent means 0);
   * `hideTrigger` asks the renderer to drop the symbol from the display text.
   */
  datatype MentionTrigger = MentionTrigger(
    allowedSpacesCount: Option<nat>,
    hideTrigger: Option<bool>,
    trigger: string)
  {
    /** `allowedSpacesCount ?? 0` */
    function MaxSpaces(): nat { allowedSpacesCount.GetOr(0) }
  }

  /**
   * The data of a mention. `extra` stands for the open-ended
   * `[key: string]: unknown` part, carried through unchanged.
   */
  datatype MentionData = MentionData(
    id: string,
    name: string,
    trigger: string,
    extra: map<string, string>)

  /** A mention positioned in a text: the half-open range `[start, end)`. */
  datatype MentionRange = MentionRange(data: MentionData, end: int, start: int)

  /** A candidate the host offers while a trigger is live; `data` is opaque. */
  datatype MentionSuggestion = MentionSuggestion(
    avatar: Option<string>,
    data: Option<string>,
    id: string,
    name: string,
    subtitle: Option<string>,
    trigger: string)
}
