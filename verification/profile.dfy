/** The student record that the scoring engine reads and the resume parser
    and readiness scorer write. */
module Profile {
  import opened Text

  /** CGPA and the readiness score are kept in hundredths (a CGPA of 8.25 is
      825, a readiness of 94.5 is 9450), which represents every value the
      portal stores with two decimals exactly. `resumeFile` is the storage
      path of the uploaded resume, empty when there is none. */
  datatype StudentProfile = StudentProfile(
    branch: string,
    cgpa: Option<int>,
    backlogs: Option<int>,
    skills: string,
    education: string,
    experience: string,
    phone: string,
    resumeFile: string,
    readiness: Option<int>)
}
