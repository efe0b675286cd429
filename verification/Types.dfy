/** The SNMP data model: object identifiers, values, variable bindings and versions. */
module Types {
  import opened Octets

  type Oid = seq<u32>

  type Ipv4 = s: bytes | |s| == 4 witness [0, 0, 0, 0]

  datatype Value =
    | Integer(int64: i64)
    | OctetString(octets: bytes)
    | Null
    | ObjectIdentifier(oid: Oid)
    | IpAddress(address: Ipv4)
    | Counter32(counter: u32)
    | Gauge32(gauge: u32)
    | TimeTicks(ticks: u32)
    | Opaque(opaqueOctets: bytes)
    | Counter64(wide: u64)
    | NoSuchObject
    | NoSuchInstance
    | EndOfMibView
  {
    /** One of the three markers an agent returns instead of a value. */
    predicate IsException() {
      NoSuchObject? || NoSuchInstance? || EndOfMibView?
    }
  }

  datatype VarBind = VarBind(oid: Oid, value: Value)

  datatype Version = V1 | V2c | V3 {
    function Number(): i64 {
      match this
      case V1 => 0
      case V2c => 1
      case V3 => 3
    }
  }

  /** `prefix` is an initial segment of `o`. */
  predicate Under(prefix: Oid, o: Oid) {
    |prefix| <= |o| && o[..|prefix|] == prefix
  }
}
