/**
 * Log output as data: the audit modules report through the process-wide
 * logger, which this model replaces by the sequence of events an operation
 * emits, in emission order.
 */
module Logging {

  datatype Level = Debug | Info | Warning | Error

  datatype Event = Event(level: Level, message: string)
}
