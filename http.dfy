/** What a controller action answers with. */
module Http {
  import opened Common

  datatype Location = Root | Back | UserGroupPage(userId: nat, groupId: nat)

  datatype Response =
    | Redirect(to: Location, notice: Option<string>)
    | Render(view: string, status: nat)
    /** The action's own template, rendered implicitly. */
    | Default
    /** A `find` that raised RecordNotFound. */
    | NotFound
    /** A `require` that raised ParameterMissing. */
    | BadRequest
}
