/** Log entries and the JSON-like values of their fields. */
module Models {
  import opened Wrappers

  datatype Value = Text(text: string) | Object(members: map<string, Value>) | Other(id: int)

  type Fields = map<string, Value>

  class LogEntry {
    var fields: Fields
    var logLine: string
    var timestamp: Option<int>  // None is the zero time
    var sourcePath: string
    var app: string

    constructor ()
      ensures fields == map[] && timestamp == None && app == ""
    {
      fields, logLine, timestamp, sourcePath, app := map[], "", None, "", "";
    }
  }
}
