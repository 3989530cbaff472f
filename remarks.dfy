/** The record the parser produces and the dashboard consumes
    (src/model/OptimizationRemark.ts). */
module Remarks {
  import opened Wrappers

  /** The optional `metrics` object of a remark; each field may be undefined. */
  datatype Metrics = Metrics(instructionsCount: Option<int>, stackSize: Option<int>)

  /** One optimization remark. `RemarkType` is declared as one of 'Passed',
      'Missed' and 'Analysis', but the parser stores whatever truthy value the
      document carries through an unchecked cast, so it is a string here.
      `Line` and `Column` are JavaScript numbers, modelled as integers. */
  datatype OptimizationRemark = OptimizationRemark(
    RemarkType: string,
    Pass: string,
    Function: string,
    File: string,
    Line: int,
    Column: int,
    Message: string,
    metrics: Option<Metrics>)
}
