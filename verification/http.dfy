/** The HTTP responses the controller and the exception handler build. */
module Http {

  const StatusOk: nat := 200
  const StatusCreated: nat := 201
  const StatusNoContent: nat := 204
  const StatusBadRequest: nat := 400
  const StatusUnauthorized: nat := 401
  const StatusConflict: nat := 409

  /** The error body: the exception's message and a fixed status word. */
  datatype ErrorDto = ErrorDto(message: string, status: string)

  datatype Body =
    | NoBody
    /** `SignUpResponseDto`: name, email and the stored password hash. */
    | SignUpBody(name: string, email: string, password: string)
    /** `LoginResponseDto`: the token value. */
    | LoginBody(token: string)
    | BoolBody(flag: bool)
    | ErrorBody(error: ErrorDto)

  datatype Response = Response(status: nat, body: Body)
}
