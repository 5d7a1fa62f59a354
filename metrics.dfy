/** The names under which the analyses report their counts: the keys of
    the results dictionaries, as an enumeration.  The comment beside each
    constructor gives the key's text. */
module Metrics {

  datatype Key =
    | TotalEligible                   // total_eligible
    | TotalComplete                   // total_complete
    | TotalOutstanding                // total_outstanding
    | RaNotComplete                   // ra_not_complete
    | RaCompleteOtherOutstanding      // ra_complete_other_outstanding
    | DaysWorkedOnly                  // days_worked_only
    | AutismWorkshopOnly              // autism_workshop_only
    | AtasOnly                        // atas_only
    | DaysAndOtherRequirements        // days_and_other_requirements
    | TotalSuspended2ss               // total_suspended_2ss
    | TotalSuspended2sr               // total_suspended_2sr
    | TotalPrcPruEligible             // total_prc_pru_eligible
    | TotalPrcPruComplete             // total_prc_pru_complete
    | TotalPrcPruOutstanding          // total_prc_pru_outstanding
    | PrcPruRaNotComplete             // prc_pru_ra_not_complete
    | PrcPruMetRaOtherOutstanding     // prc_pru_met_ra_other_outstanding
    | PrcPruDaysWorkedOnly            // prc_pru_days_worked_only
    | PrcPruAutismWorkshopOnly        // prc_pru_autism_workshop_only
    | PrcPruOtherRequirementsOnly     // prc_pru_other_requirements_only
    | PrcPruDaysAndOtherRequirements  // prc_pru_days_and_other_requirements
    | TotalTeachersOnLeave            // total_teachers_on_leave
    | TotalRetirees                   // total_retirees
    | TotalPrrComplete                // total_prr_complete
    | TotalPrrOutstanding             // total_prr_outstanding

  /** The results of one analysis: a count per key. */
  type Results = map<Key, int>
}
