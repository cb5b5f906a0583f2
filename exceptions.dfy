/** The exceptions the core throws or lets through, one constructor per .NET exception type. */
module Exceptions {

  datatype Exception =
    /** Microsoft.AspNetCore.SignalR.HubException: reported to the calling client. */
    | HubException(message: string)
    /** KeyNotFoundException. */
    | KeyNotFound(message: string)
    /** InvalidOperationException (also thrown by SingleOrDefault on more than one match). */
    | InvalidOperation(message: string)
    /** DbUpdateException from SaveChanges: a key, unique index, length or foreign-key constraint rejected a row. */
    | DbUpdate
    /** NullReferenceException: a `!` applied to a missing claim. */
    | NullReference
    /** FormatException from Guid.Parse. */
    | Format
    /** Npgsql.PostgresException: the server refused a query; `sqlState` is its SQLSTATE code. */
    | Postgres(sqlState: string)
    /** TaskCanceledException, e.g. a Redis backplane timeout. */
    | TaskCanceled
    /** Any other failure of the SignalR transport or the backplane. */
    | Transport(message: string)
}
