/** The response schema of the population endpoint (package `models`). */
module Models {

  /** Population of one country in one year. */
  datatype PopulationRecord = PopulationRecord(year: int, value: int)

  /** Body of a successful population response: the mean and the records it was taken over. */
  datatype PopulationResponse = PopulationResponse(mean: int, values: seq<PopulationRecord>)
}
