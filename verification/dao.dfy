/**
 * The two pure helpers of the `dao` package (dao/dao.go): the database name taken from
 * a file path, and the readiness check every DAO operation runs first.
 */
module Dao {
  import opened GoStrings
  import opened AuditTrail
  import opened SeqFacts

  /** `os.PathSeparator` on the Unix-like systems the model assumes. */
  const PATH_SEPARATOR: char := '/'

  /** `GetDBNameFromPath`: the last separator-delimited segment of the path. */
  function GetDBNameFromPath(t: string): (r: string)
    ensures PATH_SEPARATOR !in r
  {
    LastSegment(t, PATH_SEPARATOR)
  }

  /** A path without a separator is its own name. */
  lemma DBNameOfBareName(t: string)
    requires PATH_SEPARATOR !in t
    ensures GetDBNameFromPath(t) == t
  {
    SplitNoSeparator(t, PATH_SEPARATOR);
  }

  /** Otherwise the name is everything after the last separator. */
  lemma DBNameAfterLastSeparator(t: string)
    requires PATH_SEPARATOR in t
    ensures GetDBNameFromPath(t) == t[LastIndexOf(t, PATH_SEPARATOR) + 1..]
  {
    var j := LastIndexOf(t, PATH_SEPARATOR);
    SplitAround(t, j);
    LastSegmentOfSuffix(t[..j], t[j + 1..], PATH_SEPARATOR);
  }

  /** A path ending in a separator names nothing. */
  lemma DBNameOfDirectory(t: string)
    requires t != [] && t[|t| - 1] == PATH_SEPARATOR
    ensures GetDBNameFromPath(t) == ""
  {
    var j := |t| - 1;
    SplitAround(t, j);
    LastSegmentOfSuffix(t[..j], [], PATH_SEPARATOR);
  }

  /** A directory, a separator and a separator-free file name give back the file name. */
  lemma DBNameOfJoinedPath(dir: string, name: string)
    requires PATH_SEPARATOR !in name
    ensures GetDBNameFromPath(dir + [PATH_SEPARATOR] + name) == name
  {
    LastSegmentOfSuffix(dir, name, PATH_SEPARATOR);
  }

  /** The outcome of `CheckDAOReadyState`: nothing, or the panic it raises. */
  datatype ReadyCheck = Ready | NotInitialised(table: string, action: string)

  /**
   * `CheckDAOReadyState`: passes when the DAO is ready; otherwise panics with the "DAO
   * not initialised" error naming the table and the action's description.
   */
  function CheckDAOReadyState(table: string, action: Action, isDaoReady: bool): (r: ReadyCheck)
    ensures r.Ready? <==> isDaoReady
    ensures r.NotInitialised? ==> r.table == table && r.action == action.description
  {
    if isDaoReady then Ready else NotInitialised(table, action.description)
  }

  /** Readiness alone decides: the table and the action never stop a ready DAO. */
  lemma ReadyCheckIgnoresArguments(t1: string, a1: Action, t2: string, a2: Action, isDaoReady: bool)
    ensures CheckDAOReadyState(t1, a1, isDaoReady).Ready? == CheckDAOReadyState(t2, a2, isDaoReady).Ready?
    ensures a1.description == a2.description ==>
      CheckDAOReadyState(t1, a1, false) == CheckDAOReadyState(t1, a2, false)
  {
  }
}
