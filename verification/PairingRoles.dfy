/** The two ends of a management session and the result codes its crypto calls share. */
module PairingRoles {
  datatype Role = Client | Device

  function Peer(role: Role): Role { if role.Client? then Device else Client }

  datatype Result = Ok | InvalidArgument | InvalidState | BufferTooSmall | CryptoError | AuthFailed | Replay
}
