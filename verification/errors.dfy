/** Every error the tool can report while walking a workflow or resolving a reference. */
module Errors {

  datatype Error =
    | JobsNotFound                     // "jobs" absent or not a mapping
    | JobNotMap(job: string)           // a job is not a mapping
    | StepsNotList(job: string)        // a job's "steps" absent or not a sequence
    | StepNotMap(job: string)          // a step is not a mapping
    | RequestFailed(url: string)       // the request could not be built or sent
    | UnexpectedStatus(status: int)    // the reply was not 302 Found
    | NoLocation                       // the reply had no Location header
    | InvalidLocation(location: string) // fewer than seven '/'-separated parts
    | InvalidVersion(tag: string)      // the semantic-version parser rejected a tag
}
