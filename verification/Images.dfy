/** Container images as Kargo discovers them (pkg/image/image.go). */
module Images {
  import opened Times

  datatype Platform = Platform(os: string, arch: string, variant: string, createdAt: Time)

  /** matches of pkg/image/platform_constraint.go. */
  datatype PlatformConstraint = PlatformConstraint(os: string, arch: string, variant: string)
  {
    predicate Matches(p: Platform)
    {
      os == p.os && arch == p.arch && variant == p.variant
    }
  }

  datatype Image = Image(tag: string, digest: string, createdAt: Time, platforms: seq<Platform>)
}
