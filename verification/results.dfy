/** The outcome of a Java constructor that may throw
    `IllegalArgumentException`: the constructed value, or the exception's message. */
module Results {

  datatype Result<+T> = Ok(value: T) | IllegalArgument(message: string)
}
