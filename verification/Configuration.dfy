/** The configuration record (include/nanonet.h, src/security.c). */
module Configuration {
  import opened Bytes
  import opened Parsers

  /** struct ull_config.  Addresses and ports are kept as stored, unconverted. */
  datatype Config = Config(enabled: bool, targetIp: u32, targetPort: u16, protocol: u8,
                           responseIp: u32, responsePort: u16, seqNum: u32, logicType: u8,
                           multicast: bool, multicastGroup: u32)

  const INITIAL: Config := Config(false, 0, 0, UDP, 0, 0, 0, 0, false, 0)

  /** nanonet_validate_config */
  predicate Validates(c: Config) {
    && c.targetIp != 0 && c.responseIp != 0 && c.targetPort != 0 && c.responsePort != 0
    && (c.protocol == TCP || c.protocol == UDP)
    && (c.multicast ==> c.multicastGroup != 0)
  }
}
