/** One column assignment of a partial UPDATE: an addition (null to value),
    a deletion (value to null) or an update (value to value), with the SQL
    fragment that performs it. */
module ColumnChange {
  import opened JavaTypes

  datatype ChangeType = A | D | U

  datatype ColumnChange = ColumnChange(
    changeType: ChangeType,
    columnName: string,
    parameterName: string,
    oldValue: Value,
    newValue: Value,
    assignment: string)

  /** `ColumnChange.add`: the column was null and receives `newValue`. */
  function Add(columnName: string, newValue: Value): (c: ColumnChange)
    ensures c.changeType == A && c.columnName == columnName && c.parameterName == columnName
    ensures c.oldValue == VNull && c.newValue == newValue
    ensures c.assignment == columnName + " = :" + columnName
  {
    ColumnChange(A, columnName, columnName, VNull, newValue, columnName + " = :" + columnName)
  }

  /** `ColumnChange.delete`: the column is set to NULL. */
  function Delete(columnName: string, oldValue: Value): (c: ColumnChange)
    ensures c.changeType == D && c.columnName == columnName && c.parameterName == columnName
    ensures c.oldValue == oldValue && c.newValue == VNull
    ensures c.assignment == columnName + " = NULL"
  {
    ColumnChange(D, columnName, columnName, oldValue, VNull, columnName + " = NULL")
  }

  /** `ColumnChange.update`: the column goes from one value to another. */
  function Update(columnName: string, oldValue: Value, newValue: Value): (c: ColumnChange)
    ensures c.changeType == U && c.columnName == columnName && c.parameterName == columnName
    ensures c.oldValue == oldValue && c.newValue == newValue
    ensures c.assignment == columnName + " = :" + columnName
  {
    ColumnChange(U, columnName, columnName, oldValue, newValue, columnName + " = :" + columnName)
  }

  /** What every change the factories build satisfies: the parameter is the
      column, the kind matches which side is null, and the assignment binds
      the parameter unless it writes NULL. */
  predicate WellFormed(c: ColumnChange) {
    && c.parameterName == c.columnName
    && (c.changeType == A ==> c.oldValue.VNull? && c.assignment == c.columnName + " = :" + c.parameterName)
    && (c.changeType == D ==> c.newValue.VNull? && c.assignment == c.columnName + " = NULL")
    && (c.changeType == U ==> c.assignment == c.columnName + " = :" + c.parameterName)
  }
}
