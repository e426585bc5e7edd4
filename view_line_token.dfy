// The token descriptor handed to the renderer. The editor's class keeps the
// class name in a field called `type`, a reserved word in Dafny.
module ViewLineTokens {

  datatype ViewLineToken = ViewLineToken(startIndex: int, className: string)
}
