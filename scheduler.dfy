/**
  The notification scheduler: a reminder one day before an event starts and a
  feedback request one day after it ends, each put on the process-wide job
  timeline only when its fire time is still in the future.

  The current time (`new Date()`) is a parameter in milliseconds. What a job
  does when it fires (send the email, log the outcome) is not part of this
  model.
 */
module Scheduler {
  import opened Wrappers

  /** 24 * 60 * 60 * 1000 milliseconds. */
  const DayMs: int := 86_400_000

  /** The largest distance from the epoch, in milliseconds, that a JavaScript
      Date can hold; beyond it the Date is invalid. */
  const MaxTimeMs: int := 8_640_000_000_000_000

  /** A representable time in milliseconds. */
  predicate InRange(t: int) {
    -MaxTimeMs <= t <= MaxTimeMs
  }

  /** A JavaScript Date: a time in milliseconds since the epoch, or invalid (NaN). */
  datatype Date = Time(ms: int) | InvalidDate

  /** `new Date(ms)`: an absent or out-of-range time gives an invalid Date. */
  function MakeDate(ms: Option<int>): Date {
    if ms.Some? && InRange(ms.value) then Time(ms.value) else InvalidDate
  }

  /** `date > new Date()`: comparing an invalid Date is always false. */
  predicate IsLater(date: Date, nowMs: int) {
    date.Time? && date.ms > nowMs
  }

  /** The fields the scheduler reads from the event it is given. */
  datatype EventTimes = EventTimes(name: Option<string>, startTime: Option<int>, endTime: Option<int>)

  datatype Kind = Reminder | Feedback

  /** A pending job on the timeline: what it sends, to whom, and when. */
  datatype Job = Job(kind: Kind, fireAt: int, recipient: string, eventName: Option<string>)

  /** `new Date(new Date(startTime).getTime() - 24h)`. */
  function ReminderTime(e: EventTimes): Date {
    match MakeDate(e.startTime)
    case InvalidDate => InvalidDate
    case Time(t) => MakeDate(Some(t - DayMs))
  }

  /** `new Date(new Date(endTime).getTime() + 24h)`. */
  function FeedbackTime(e: EventTimes): Date {
    match MakeDate(e.endTime)
    case InvalidDate => InvalidDate
    case Time(t) => MakeDate(Some(t + DayMs))
  }

  /** The reminder job a call schedules, if any. */
  function ReminderJob(e: EventTimes, email: string, nowMs: int): Option<Job> {
    var at := ReminderTime(e);
    if IsLater(at, nowMs) then Some(Job(Reminder, at.ms, email, e.name)) else None
  }

  /** The feedback-request job a call schedules, if any. */
  function FeedbackJob(e: EventTimes, email: string, nowMs: int): Option<Job> {
    var at := FeedbackTime(e);
    if IsLater(at, nowMs) then Some(Job(Feedback, at.ms, email, e.name)) else None
  }

  /** The reminder is scheduled exactly when the event has a start time and one
      day before it lies strictly after now (both within the Date range); the
      job is then a reminder to the given address, firing exactly 86,400,000 ms
      before the start. */
  lemma ReminderScheduledIff(e: EventTimes, email: string, nowMs: int)
    ensures ReminderJob(e, email, nowMs).Some? <==>
      && e.startTime.Some? && InRange(e.startTime.value) && InRange(e.startTime.value - DayMs)
      && e.startTime.value - DayMs > nowMs
    ensures ReminderJob(e, email, nowMs).Some? ==>
      var job := ReminderJob(e, email, nowMs).value;
      && job.kind == Reminder && job.recipient == email
      && job.fireAt == e.startTime.value - 86_400_000 && job.fireAt > nowMs
  {
  }

  /** The feedback request is scheduled exactly when the event has an end time
      and one day after it lies strictly after now (both within the Date
      range); the job then fires exactly 86,400,000 ms after the end. */
  lemma FeedbackScheduledIff(e: EventTimes, email: string, nowMs: int)
    ensures FeedbackJob(e, email, nowMs).Some? <==>
      && e.endTime.Some? && InRange(e.endTime.value) && InRange(e.endTime.value + DayMs)
      && e.endTime.value + DayMs > nowMs
    ensures FeedbackJob(e, email, nowMs).Some? ==>
      var job := FeedbackJob(e, email, nowMs).value;
      && job.kind == Feedback && job.recipient == email
      && job.fireAt == e.endTime.value + 86_400_000 && job.fireAt > nowMs
  {
  }

  /** An event whose start lies less than a day ahead gets no reminder: ten
      hours ahead puts the reminder fourteen hours in the past. */
  lemma ReminderSkippedWhenTooLate(e: EventTimes, email: string, nowMs: int)
    requires e.startTime.Some? && e.startTime.value < nowMs + DayMs
    ensures ReminderJob(e, email, nowMs).None?
  {
  }

  /** An event document with neither start nor end time (the event schema
      has no such fields) never gets a job. */
  lemma NoTimesNoJobs(e: EventTimes, email: string, nowMs: int)
    requires e.startTime.None? && e.endTime.None?
    ensures ReminderJob(e, email, nowMs).None? && FeedbackJob(e, email, nowMs).None?
  {
  }

  /** The list as a sequence: `[]` or the one job. */
  function AsSeq(j: Option<Job>): (s: seq<Job>)
    ensures |s| <= 1
    ensures j.None? <==> s == []
    ensures j.Some? ==> s == [j.value]
  {
    if j.Some? then [j.value] else []
  }

  /** The process-wide timeline of scheduled jobs, in scheduling order. */
  class Timeline {
    var pending: seq<Job>

    constructor ()
      ensures pending == []
    {
      pending := [];
    }

    /** `scheduleReminder(event, userEmail)`: append at most one reminder job;
        nothing is returned and no error reaches the caller. */
    method ScheduleReminder(e: EventTimes, email: string, nowMs: int)
      modifies this
      ensures pending == old(pending) + AsSeq(ReminderJob(e, email, nowMs))
      ensures |pending| <= |old(pending)| + 1
      ensures forall k :: |old(pending)| <= k < |pending| ==> pending[k].kind == Reminder
    {
      var start := MakeDate(e.startTime);
      var at := InvalidDate;
      if start.Time? {
        at := MakeDate(Some(start.ms - DayMs));
      }
      if at.Time? && at.ms > nowMs {
        pending := pending + [Job(Reminder, at.ms, email, e.name)];
      }
    }

    /** `scheduleFeedbackRequest(event, userEmail)`: append at most one
        feedback job; nothing is returned and no error reaches the caller. */
    method ScheduleFeedbackRequest(e: EventTimes, email: string, nowMs: int)
      modifies this
      ensures pending == old(pending) + AsSeq(FeedbackJob(e, email, nowMs))
      ensures |pending| <= |old(pending)| + 1
      ensures forall k :: |old(pending)| <= k < |pending| ==> pending[k].kind == Feedback
    {
      var end := MakeDate(e.endTime);
      var at := InvalidDate;
      if end.Time? {
        at := MakeDate(Some(end.ms + DayMs));
      }
      if at.Time? && at.ms > nowMs {
        pending := pending + [Job(Feedback, at.ms, email, e.name)];
      }
    }
  }
}
