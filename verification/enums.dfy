/** The three closed contract enumerations, their integer codes, and the
    way `load` resolves a code back to a member. */
module Enums {

  datatype ContractType = Legacy | Standard | Bronze | Silver | Gold | FreenasCertified | FreenasMini

  datatype ContractHardware = Parts | NextDay | FourHour

  datatype ContractSoftware = NoSoftware | Business | Integral

  /** Members in declaration order, the order `__members__` iterates. */
  const ContractTypes: seq<ContractType> := [Legacy, Standard, Bronze, Silver, Gold, FreenasCertified, FreenasMini]
  const ContractHardwares: seq<ContractHardware> := [Parts, NextDay, FourHour]
  const ContractSoftwares: seq<ContractSoftware> := [NoSoftware, Business, Integral]

  function ContractTypeCode(t: ContractType): int {
    match t
    case Legacy => 0
    case Standard => 1
    case Bronze => 2
    case Silver => 3
    case Gold => 4
    case FreenasCertified => 5
    case FreenasMini => 6
  }

  function ContractHardwareCode(h: ContractHardware): int {
    match h
    case Parts => 0
    case NextDay => 1
    case FourHour => 2
  }

  function ContractSoftwareCode(s: ContractSoftware): int {
    match s
    case NoSoftware => 0
    case Business => 1
    case Integral => 2
  }

  /** A record field of enum type: a member, or the raw integer `load`
      leaves in place when no member has that code. */
  datatype Coded<E> = Member(member: E) | Raw(code: int)

  /** The `load` loop: the first member, in declaration order, whose value
      equals the code; the code itself when none does. */
  function Resolve<E>(code: int, members: seq<E>, value: E -> int): (r: Coded<E>)
    ensures r.Member? ==> r.member in members && value(r.member) == code
    ensures r.Raw? ==> r.code == code && forall i :: 0 <= i < |members| ==> value(members[i]) != code
  {
    if |members| == 0 then Raw(code)
    else if value(members[0]) == code then Member(members[0])
    else Resolve(code, members[1..], value)
  }

  function DecodeContractType(code: int): (r: Coded<ContractType>)
    ensures r.Member? <==> 0 <= code <= 6
    ensures r.Member? ==> ContractTypeCode(r.member) == code
    ensures r.Raw? ==> r.code == code
  {
    assert 0 <= code <= 6 ==> ContractTypeCode(ContractTypes[code]) == code;
    Resolve(code, ContractTypes, ContractTypeCode)
  }

  function DecodeContractHardware(code: int): (r: Coded<ContractHardware>)
    ensures r.Member? <==> 0 <= code <= 2
    ensures r.Member? ==> ContractHardwareCode(r.member) == code
    ensures r.Raw? ==> r.code == code
  {
    assert 0 <= code <= 2 ==> ContractHardwareCode(ContractHardwares[code]) == code;
    Resolve(code, ContractHardwares, ContractHardwareCode)
  }

  function DecodeContractSoftware(code: int): (r: Coded<ContractSoftware>)
    ensures r.Member? <==> 0 <= code <= 2
    ensures r.Member? ==> ContractSoftwareCode(r.member) == code
    ensures r.Raw? ==> r.code == code
  {
    assert 0 <= code <= 2 ==> ContractSoftwareCode(ContractSoftwares[code]) == code;
    Resolve(code, ContractSoftwares, ContractSoftwareCode)
  }

  /** Codes are distinct (`@unique`), so a member's code resolves to it. */
  lemma DecodeContractTypeCode(t: ContractType)
    ensures DecodeContractType(ContractTypeCode(t)) == Member(t)
  {
  }

  lemma DecodeContractHardwareCode(h: ContractHardware)
    ensures DecodeContractHardware(ContractHardwareCode(h)) == Member(h)
  {
  }

  lemma DecodeContractSoftwareCode(s: ContractSoftware)
    ensures DecodeContractSoftware(ContractSoftwareCode(s)) == Member(s)
  {
  }
}
