/**
 * Configuration errors. In the original each of these is a `log.Fatal`
 * that ends the process during route registration; here they are values.
 */
module Errors {

  datatype RouteError =
    | NilHandler                      // failIfEmpty: the handler is nil
    | EmptyPath                       // failIfEmpty: the path pattern is ""
    | EmptyParamName(segment: string) // separate: ":" or ":!re" or ":  "
    | EmptyPattern                    // compileRe: ":name!" with nothing after "!"
    | BadPattern(source: string)      // compileRe: the regexp library refused the source
    | ParamConflict(name: string)     // route: validParam failed for this name
    | DuplicateMethod(verb: string)   // add: the method is already registered on the node
}
