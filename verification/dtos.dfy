/** The response and request shapes the services produce and accept. */
module Dtos {
  import opened Wrappers
  import opened Models

  /** One car with its owner, as listed. */
  datatype CarDto = CarDto(
    id: int,
    vin: string,
    make: Option<string>,
    model: Option<string>,
    year: int,
    ownerId: int,
    ownerName: string,
    ownerEmail: Option<string>)

  /** The validity answer as reported to callers; the date is already rendered. */
  datatype InsuranceValidityResponse = InsuranceValidityResponse(carId: int, date: string, valid: bool)

  /** The payload of a claim registration. */
  datatype ClaimDto = ClaimDto(claimDate: Date, description: string, amount: Amount)

  datatype CarHistoryPolicyDto = CarHistoryPolicyDto(
    policyProvider: string,
    startDate: Date,
    endDate: Date,
    description: string)

  datatype CarHistoryClaimDto = CarHistoryClaimDto(claimDate: Date, description: string)

  datatype CarHistoryResponse = CarHistoryResponse(
    carId: int,
    vin: string,
    policies: seq<CarHistoryPolicyDto>,
    claims: seq<CarHistoryClaimDto>)
}
