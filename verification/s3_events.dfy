/** The parts of an S3 object-created notification and of a Lambda reply that the handlers use. */
module S3Events {
  import opened Wrappers

  /** One notification record: `record['s3']['bucket']['name']` and `record['s3']['object']['key']`, each possibly absent. */
  datatype Record = Record(bucket: Option<string>, key: Option<string>)

  /** The triggering event: its `Records` list, absent when the event has no such entry. */
  datatype Event = Event(records: Option<seq<Record>>)

  /** What the Lambda runtime sees: a reply dictionary with a status code, or an exception that escaped the handler. */
  datatype Response = Reply(statusCode: int) | Uncaught

  /** The scripted outcome of one `put_object` call. */
  datatype WriteOutcome = Stored | WriteError
}
