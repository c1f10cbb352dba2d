/**
 * The records of src/types.ts the email builders read. The two window
 * dates arrive already resolved to calendar dates (what `new Date(...)`
 * yields in the process's time zone); a compiled template is known by its
 * identity.
 */
module Types {
  import Dates

  /** `Availability`. */
  datatype Availability = Availability(
    lastUpdated: string,
    startDate: Dates.CalendarDate,
    endDate: Dates.CalendarDate,
    isAvailable: bool
  )

  /** A compiled nunjucks template. */
  type Template = string

  /** `BuildEmailBodyParams`. */
  datatype BuildEmailBodyParams = BuildEmailBodyParams(
    availableTemplate: Template,
    fullyBookedTemplate: Template,
    atfName: string,
    availability: Availability,
    token: string,
    emailLinkBaseUrl: string
  )
}
