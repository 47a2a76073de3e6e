/** State of one request, shared by its input stream and its two output streams. */
module Requests {
  import opened Bytes
  import opened Connections

  class Request {
    const ipc: Connection
    var requestId: nat
    var role: nat
    var keepConnection: bool
    var isBeginProcessed: bool
    // output streams not yet closed
    var nWriters: int
    var appStatus: int

    constructor (ipc: Connection)
      ensures this.ipc == ipc
      ensures requestId == 0 && !isBeginProcessed && nWriters == 0 && appStatus == 0
    {
      this.ipc := ipc;
      requestId, role, keepConnection, isBeginProcessed := 0, 0, false, false;
      nWriters, appStatus := 0, 0;
    }
  }
}
