/** The value the schedule port trades in: who is on call for which window. */
module OpsgeniePort {
  import opened Models

  datatype OnCallAssignment = OnCallAssignment(participant: Participant, window: TimeWindow)
}
