/** The result codes every service operation answers with (Response.Code). */
module Response {

  datatype Code =
    | OK
    | ERROR
    | INVALID_TOKEN
    | INSUFFICIENT_PERMISSIONS
    | NOT_FOUND
    | NOT_AVAILABLE
    | INVALID_TOTAL_COPIES
    | MAX_ITEMS_REACHED
    | MAX_USERS_REACHED
    | MAX_RESERVATIONS_REACHED

}
