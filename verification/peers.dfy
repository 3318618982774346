/** The process at the other end of a connection, as its socket credentials and code signature describe it. */
module Peers {

  datatype Peer = Peer(
    pid: int,
    uid: nat,
    path: string,
    teamId: string,
    signingId: string,
    cdHash: string,
    signed: bool,
    appleAnchored: bool,
    applePlatform: bool,
    hardened: bool)
}
