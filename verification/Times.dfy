/** Points in time and lengths of time, in integer nanoseconds. */
module Times {

  type Time = int
  type Duration = int
}
