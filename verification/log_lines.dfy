/** The worklog records the page's backend returns, and the keys they are
    grouped under. */
module LogLines {
  import opened Wrappers
  import opened JsValues

  datatype Project = Project(projectName: string, projectId: JsValue)

  /** One worklog entry. `timeUnit` counts half hours; `ticket` is absent
      when the record carries none. */
  datatype LogLine = LogLine(
    description: string,
    logDate: string,
    timeUnit: int,
    ticket: Option<string>,
    userProject: Project)

  /** A grouping key as the extraction functions return it: `null`,
      `undefined`, or a string. */
  datatype GroupKey = NullKey | UndefinedKey | TextKey(text: string)

  /** `String(key)`. */
  function KeyString(k: GroupKey): (s: string)
    ensures k.TextKey? ==> s == k.text
    ensures k.NullKey? ==> s == "null"
    ensures k.UndefinedKey? ==> s == "undefined"
  {
    match k
    case NullKey => "null"
    case UndefinedKey => "undefined"
    case TextKey(t) => t
  }

  function TimeUnitOf(line: LogLine): int {
    line.timeUnit
  }

  function ProjectNameOf(line: LogLine): string {
    line.userProject.projectName
  }
}
