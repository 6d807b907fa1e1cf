/** The checks the command line makes on the data set's shape and on the
    weight and impact lists before any computation, in the order it makes
    them. The weights are already integers and the impacts already split at
    the commas. */
module Validation {

  datatype Rejection =
    | TooFewColumns     // fewer than 3 columns in the data set
    | BadImpactSymbol   // an impact that is neither "+" nor "-"
    | CountMismatch     // weights, impacts and criterion columns disagree in number

  datatype Verdict = Accepted | Rejected(reason: Rejection)

  predicate ValidImpact(s: string) {
    s == "+" || s == "-"
  }

  /** Accepts exactly when there are at least 3 columns, every impact is "+"
      or "-", and there are as many weights as impacts and one column more
      than weights; otherwise names the first check that fails. */
  function Validate(columnCount: nat, weights: seq<int>, impacts: seq<string>): (v: Verdict)
    ensures v == Accepted <==>
              3 <= columnCount &&
              (forall i :: 0 <= i < |impacts| ==> ValidImpact(impacts[i])) &&
              |weights| == |impacts| && columnCount == |weights| + 1
    ensures v == Rejected(TooFewColumns) <==> columnCount < 3
    ensures v == Rejected(BadImpactSymbol) <==>
              3 <= columnCount && exists i :: 0 <= i < |impacts| && !ValidImpact(impacts[i])
    ensures v == Rejected(CountMismatch) ==>
              forall i :: 0 <= i < |impacts| ==> ValidImpact(impacts[i])
  {
    if columnCount < 3 then Rejected(TooFewColumns)
    else if !AllValid(impacts) then Rejected(BadImpactSymbol)
    else if |weights| != |impacts| || columnCount != |weights| + 1 then Rejected(CountMismatch)
    else Accepted
  }

  /** Scans the impact list left to right. */
  function AllValid(impacts: seq<string>): (b: bool)
    ensures b <==> forall i :: 0 <= i < |impacts| ==> ValidImpact(impacts[i])
  {
    if |impacts| == 0 then true
    else ValidImpact(impacts[0]) && AllValid(impacts[1..])
  }

  /** An accepted run has at least two criteria, one weight and one impact
      per criterion, and every criterion not marked "+" is marked "-". */
  lemma AcceptedShape(columnCount: nat, weights: seq<int>, impacts: seq<string>)
    requires Validate(columnCount, weights, impacts) == Accepted
    ensures |weights| == |impacts| == columnCount - 1 >= 2
    ensures forall i :: 0 <= i < |impacts| && impacts[i] != "+" ==> impacts[i] == "-"
  {
  }
}
